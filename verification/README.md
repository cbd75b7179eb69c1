# Verified model of the Jaiba memory engine

A Dafny model of the parts of Jaiba that keep data: the memory engine (`crates/jaiba-memory`), and beside it the flow
graph builder, the versioned flow registry, the connection profiles with their encrypted secrets, the framing of the
plugin protocol and the SQL builder. `dafny verify dfyconfig.toml` checks the whole project.

Code that changes things step by step is modelled as classes and loops, each proved against a specification on values;
the properties are then proved about those values. Faults (a backend that fails, a file that is not written, a crash
between two bytes) are inputs: every theorem holds for every combination of them. A backend and the sink carry a
schedule that says of each coming call whether it fails, and contracts say exactly what the calls that fail decide.

## What is modelled

- **Cold, the segmented log.** `ColdRecord` is the record format (header, both parsers, encoding and decoding) and
  `ColdFormat` that format byte by byte. `ColdLog` is one segment: the scan that builds the index, the search for the
  next record, salvage, and opening. `ColdDisk` rebuilds a store from class directories; `ColdState` is the store on
  values; `ColdRuns` proves it a map over every run, with quota, rotation and reopening; `ColdRecovery` covers crashes
  and damage; `ColdAnswers` says when a put is refused and what a get answers; `ColdClasses` says exactly when a store
  whose keys moved between classes can be opened; `ColdStore` is the store with its writer and memory-map caches and
  its loops; `ColdNames` relates file names and ids.
- **Hot.** `HotSpec` says what right victims are and when a value can be admitted; `HotTier` is the store;
  `HotAnswers` states order, room and lifetimes in terms of policies and instants.
- **Manager.** `Tiers` and `Deferred` are the backends, the sink and the write-behind queue; `Coherence` and
  `ManagerSteps` say what it means that tiers, queue and sink agree and what each step keeps; `Manager` is the manager
  with its compensations; `ManagerAnswers` states what flushes, reads and upserts leave, by the policy of a class;
  `ManagerRuns` is about every run of steps, `ManagerCopies` about the keys that survive their deadlines, and
  `ManagerTrace` shows that every call of the manager is such a run; `StaleReads` exhibits the runs that the
  conditions of read coherence shut out.
- **FlowGraph** builds and sorts a flow graph.
- **FlowRecord**, **FlowRegistry**, **FlowAnswers**, **RegistryStore**: version histories, the registry calls as
  steps, when each succeeds and what it leaves, and the registry object.
- **Secrets**, **Connections**, **ConnectionAnswers**, **ConnectionStore**: the encrypted secret file and its store;
  profile and secret transactions, when each succeeds and what it leaves; the connection manager.
- **Frames**: newline-framed JSON read in arbitrary chunks (section 7 of RFC 8259 has newlines escaped inside JSON).
- **SqlText**, **SqlGrammar**, **SqlBuilder**, **SqlCompiler**, **SqlMeaning**: the text of compiled statements, a
  lexer and parser that read it back, the tree a specification compiles to, the builder that pushes the text, and what
  statement and specification ask of the rows.

## Hypotheses

These are stated in the contracts; the source needs them.

- *One class per key, and class directories that do not collide.* Opening can refuse a key met under two classes, even
  if it was removed under one of them (`ColdClasses.ClassChangeBlocksReopening`). When it does is exact for the order
  of the source, which visits directories by name (`ColdClasses.SourceOpensIff`), for any given order
  (`ColdClasses.OpensIff`), and for all orders at once, over all disks and over all runs
  (`ColdClasses.RunReopensIff`).
- *An append completes or ends the session.* The writer's size does not advance after a failed partial write; crashes
  are covered by reopening.
- *No complete record inside the damaged bytes.* Resynchronisation cannot tell an embedded record from a real one
  (`ColdRecovery.EmbeddedRecordSurvives`); `ColdLog.TornWriteIsCutIff` is exact.
- *Read coherence holds between deadlines.* An entry that expires leaves Hot without a demotion, so an older lower
  copy can reappear (`StaleReads.ExpiryBringsBackOldValue`; `ManagerSteps.ExpiryAgreesIff` says exactly when not). A
  key whose upserts were all copied to its tier, as those of Warm and Frozen classes are unless an upsert fails after
  its write, needs no deadline to wait for (`ManagerCopies.CopiedReadIsLast`). Coherence also needs removals that
  reach every tier (`StaleReads.FailedRemovalBringsBackOldValue`; `ManagerSteps.FailedRemovalAgreesIff` is exact).
  Neither is needed for the queue, the sink, and the bounds of Hot.
- *Careful callers of the connection manager.* The secret reference that a duplication draws is unused. A plain create
  or update that names a missing secret is accepted; it, and nothing else, leaves a profile without its secret
  (`Connections.ResolvingIff`).

## Where the code does less than one might expect

- A metadata call of the registry that answers Err because saving failed has changed memory all the same
  (`FlowRegistry.FailedSaveKeepsChange`; `FlowRegistry.ReplyTellsWhatHappened` is exact); an activation answers Ok
  without its save (`FlowRegistry.DurableIffSaved`).
- The active version need not be DEPLOYED: validating it again, and nothing else, takes it out of DEPLOYED
  (`FlowRegistry.ActiveStaysDeployedIff`).
- Rollback is documented to go to the version deployed last before; it goes to the highest number once deployed. A run
  in which the two differ is `FlowRegistry.RollbackSkipsLatest`; they agree on the version active before exactly when
  `FlowRegistry.RollbackUndoesDeployIff` says.
- Seeding does not look at the limit of running flows, and passes it exactly when `FlowRegistry.StepKeepsCapacity`
  says.
- A deletion whose secret cannot be removed and whose profile cannot be saved back leaves a stale status entry
  (`Connections.StatusMatchesIff`).
- A call of the connection manager whose own compensation fails leaves something behind: when is
  `Connections.UnrestoredIff`, and what, `Connections.FailureLeaves`.
- A stream that ends inside a frame is reported as a frame that is too large (`Frames.TornFrame`; `Frames.TooLargeIff`
  is exact).
- Contains and StartsWith do not escape `%` and `_` in the value: they find the texts that contain or start with it if
  and only if there are none in it (`SqlMeaning.ContainsIff`, `SqlMeaning.StartsWithIff`).
- A put quota or a segment limit of 2^64 - 1 never binds, because the source saturates its sum
  (`ColdRuns.PutAccounting`).

## Model

| member | source | states |
|---|---|---|
| ColdRecord.U32RoundTrip | crates/jaiba-memory/src/cold.rs:647-682 | the little-endian length fields of the header lose nothing for any value below 2^32 |
| ColdRecord.HeaderRoundTrip | crates/jaiba-memory/src/cold.rs:647-690 | parsing a written header gives it back, whatever bytes follow it |
| ColdRecord.RecordIsLocal | crates/jaiba-memory/src/cold.rs:562-576 | whether and what record stands at the front of a byte string depends on the bytes of that record alone |
| ColdRecord.RecordThen | crates/jaiba-memory/src/cold.rs:562-576 | a record followed by anything is read as that same record |
| ColdRecord.StrictPrefixIsNoRecord | crates/jaiba-memory/src/cold.rs:562-576 | no strict prefix of a record is accepted as a record, so a torn write cannot pass for a whole one |
| ColdRecord.EncodeIsRecord | crates/jaiba-memory/src/cold.rs:198-280 | the bytes an append writes are structurally one record with the given flag, key and class |
| ColdRecord.DecodeEncoded | crates/jaiba-memory/src/cold.rs:692-725 | decoding an encoded value answers by decompression, digest comparison and JSON, each with its own error |
| ColdRecord.BuiltRecordIsRecord | crates/jaiba-memory/src/cold.rs:198-280 | whatever a put or remove builds is one valid record of its key and class, value or tombstone as asked |
| ColdRecord.BuiltRecordRoundTrip | crates/jaiba-memory/src/cold.rs:692-725 | decoding a written value record returns the stored entry |
| ColdFormat.HeaderLayout | crates/jaiba-memory/src/cold.rs:647-664 | every byte of a header: JMC1, the flag, four 32-bit lengths with the least significant byte first, the digest |
| ColdFormat.ParsedIsWritten | crates/jaiba-memory/src/cold.rs:666-690 | a header that parses is, byte for byte, what the writer writes for it |
| ColdFormat.RecordIsEncoded | crates/jaiba-memory/src/cold.rs:562-576 | what is accepted as a record is the encoding of one: flag 1 or 2, key and class in UTF-8, every field within its limit |
| ColdFormat.EncodedIsRecord | crates/jaiba-memory/src/cold.rs:562-576 | and every such encoding is accepted, whatever follows it |
| ColdFormat.DecodesIff | crates/jaiba-memory/src/cold.rs:692-725 | one record is read exactly if it is a value of the expected key whose payload decompresses to bytes with the recorded digest that are JSON |
| ColdFormat.BuildsIff | crates/jaiba-memory/src/cold.rs:198-226 | a record can be written exactly if key and class are within 16 MiB, the value serialises, and its text, raw and compressed, is within 1 GiB; it takes 53 bytes more than its fields |
| ColdLog.ReplayConcat | crates/jaiba-memory/src/cold.rs:475-548 | replaying a concatenation of logs is replaying the parts in turn, at their offsets |
| ColdLog.HalfScanIsHarmless | crates/jaiba-memory/src/cold.rs:437-449 | the index half-updated by an aborted first scan ends, after the rescan, as if the aborted scan had never been |
| ColdLog.ScanIsReplay | crates/jaiba-memory/src/cold.rs:475-559 | the streaming scanner accepts exactly the records the slice parser accepts, for every byte string: it indexes the clean front and its verdict depends on the rest alone |
| ColdLog.SalvageIsClean | crates/jaiba-memory/src/cold.rs:587-636 | salvage is total: bytes kept plus bytes dropped is the file length, and what is kept is a concatenation of complete records |
| ColdLog.SalvageIsIdempotent | crates/jaiba-memory/src/cold.rs:587-636 | salvaging what was salvaged keeps all of it |
| ColdLog.NothingSalvagedIff | crates/jaiba-memory/src/cold.rs:578-602 | salvage leaves nothing exactly for byte strings in which no record starts anywhere |
| ColdLog.SalvageDropsOnlyDamage | crates/jaiba-memory/src/cold.rs:587-602 | a damaged span in which no record starts costs its own bytes and nothing else |
| ColdLog.RescanAcceptsSalvaged | crates/jaiba-memory/src/cold.rs:437-449 | the rescan accepts a salvaged file to its last byte or stops on a class conflict, so the "still damaged after salvage" branch cannot be reached |
| ColdLog.OpenIsSalvageAndReplay | crates/jaiba-memory/src/cold.rs:436-466 | opening any segment that is not refused leaves the file at its salvage and the index at the clean replay of those bytes |
| ColdLog.OwnedSegmentOpens | crates/jaiba-memory/src/cold.rs:436-466 | when the surviving records keep one class per key, no segment is refused, however damaged |
| ColdLog.DamagedSpanOpens | crates/jaiba-memory/src/cold.rs:436-466 | a log with an overwritten span opens to exactly the other records in order; salvage is counted exactly when something follows the span or the span still frames a record |
| ColdLog.TornTailOpens | crates/jaiba-memory/src/cold.rs:455-466 | a clean log with a garbage tail in which no record starts reopens to the clean log and its index |
| ColdLog.TornWriteIsCutIff | crates/jaiba-memory/src/cold.rs:550-559 | a torn write is cut off if and only if no complete record is embedded in the part written |
| ColdDisk.OpenDirSound | crates/jaiba-memory/src/cold.rs:422-473 | an opened directory is its salvage segment by segment, its index effects overlaid in segment order, its byte count exact |
| ColdDisk.RebuildTheorem | crates/jaiba-memory/src/cold.rs:422-473 | opening succeeds on any disk whose surviving records keep one class per key, in every directory order, with the salvaged files, the exact byte count and the index that matches them |
| ColdDisk.MatchingIndexIsUnique | crates/jaiba-memory/src/cold.rs:422-473 | the files determine the index, so the directory order cannot matter |
| ColdDisk.ReopenIsIdentity | crates/jaiba-memory/src/cold.rs:422-473 | reopening gives back exactly the live index (files, offsets, lengths, classes) and touches no byte, in every directory order |
| ColdDisk.QuietDiskNotSalvaged | crates/jaiba-memory/src/cold.rs:437-449 | no segment is counted as salvaged when none is damaged |
| ColdState.EffectsAgree | crates/jaiba-memory/src/cold.rs:475-548 | every index entry a log produces points at the bytes of the last record of its key |
| ColdState.DirEffectsAgree | crates/jaiba-memory/src/cold.rs:422-473 | the same over all segments of a directory |
| ColdState.IndexPointsAtContent | crates/jaiba-memory/src/cold.rs:304-345 | every indexed location holds the last record of its key, under that key and class |
| ColdState.ViewIsContents | crates/jaiba-memory/src/cold.rs:347-353 | get answers with the decoded last record of the key in the files |
| ColdState.WriteEffects | crates/jaiba-memory/src/cold.rs:198-280 | an append, rotated or not, adds exactly the effects, contents and bytes of what it writes |
| ColdState.WriteKeepsDirOk | crates/jaiba-memory/src/cold.rs:198-280 | an append keeps the directory well formed: ascending ids, clean segments, one class per key |
| ColdRuns.WriteRecord | crates/jaiba-memory/src/cold.rs:198-280 | one record written: its key now means that record, at its recorded file and offset, and every other key what it meant; total bytes grow by its length |
| ColdRuns.PutTheorem | crates/jaiba-memory/src/cold.rs:355-367 | put is map update: exactly that entry under that key, every other key untouched; refused, files, index and count stay |
| ColdRuns.RemoveTheorem | crates/jaiba-memory/src/cold.rs:369-376 | remove takes the key out of the map, answers whether it was there, is never refused by the quota and costs nothing for an absent key |
| ColdRuns.PutAccounting | crates/jaiba-memory/src/cold.rs:222-275 | a successful put adds its record length and ends within max_disk_bytes; a quota rejection changes its counter only; any other refusal changes nothing |
| ColdRuns.AppendRotates | crates/jaiba-memory/src/cold.rs:236-275 | an append takes no nonempty segment past segment_max_bytes (a limit of 2^64 - 1 never rotates), touches no other segment or directory, and its recorded offset holds the record |
| ColdRuns.IndexClassIsOwner | crates/jaiba-memory/src/cold.rs:506-530 | indexed keys carry the class they belong to |
| ColdRuns.ReopenKeepsState | crates/jaiba-memory/src/cold.rs:422-473 | a live store and its reopening agree on files, index and byte count |
| ColdRuns.RunTheorem | crates/jaiba-memory/src/cold.rs:198-376 | over every run of puts, removes and reopenings, over any number of classes and rotations, the store answers as a plain map, and reopening it afterwards finds the same index |
| ColdRuns.EmptyStoreIsStart | crates/jaiba-memory/src/cold.rs:171-192 | an empty directory is a start of such runs |
| ColdRuns.OpenedStoreIsStart | crates/jaiba-memory/src/cold.rs:171-192 | so is any directory, however damaged, whose surviving records keep one class per key |
| ColdAnswers.PutAnswers | crates/jaiba-memory/src/cold.rs:198-234 | a put is accepted exactly if the key has no other class, its record can be written, and the bytes on disk with the record stay within the limit, if there is one (2^64 - 1 never binds); each refusal has its own answer |
| ColdAnswers.PutCosts | crates/jaiba-memory/src/cold.rs:274-275 | an accepted put takes the bytes of its record, a refused one none |
| ColdAnswers.GetAfterRun | crates/jaiba-memory/src/cold.rs:348-353 | after any run a get answers what the plain map holds |
| ColdAnswers.GetFromEmpty | crates/jaiba-memory/src/cold.rs:347-376 | from an empty store a get answers the entry of the last accepted put of its key, or nothing if a removal followed |
| ColdAnswers.RotatesIff | crates/jaiba-memory/src/cold.rs:236-249 | an append opens a new segment, with the next id, exactly if the last one holds something and the record would take it past the limit |
| ColdAnswers.FramedIff | crates/jaiba-memory/src/cold.rs:487-500 | bytes that start with no record count as damage when they start with a readable header whose record would fit |
| ColdAnswers.SalvageCountsDamaged | crates/jaiba-memory/src/cold.rs:434-466 | opening a directory counts as salvaged exactly the segments in which something other than a torn write follows the records at the front |
| ColdAnswers.RebuildCountsDamaged | crates/jaiba-memory/src/cold.rs:422-473 | the same over all directories |
| ColdRecovery.JunkIsCut | crates/jaiba-memory/src/cold.rs:455-466 | junk behind the last segment of a store is cut: files, index and answers are those before, and later runs are covered |
| ColdRecovery.CrashRecovery | crates/jaiba-memory/src/cold.rs:251-275 | a put or remove cut short at any byte, in an old or a freshly rotated segment, leaves nothing behind after reopening |
| ColdRecovery.DamageLosesOnlyItsRecord | crates/jaiba-memory/src/cold.rs:437-449 | overwriting the bytes of one record of one segment loses that record only: every other record of every segment survives byte for byte, every other key answers as before |
| ColdRecovery.EmbeddedRecordSurvives | crates/jaiba-memory/src/cold.rs:578-602 | concrete torn write whose key embeds a complete record: salvage keeps exactly that record, so the condition of crash recovery is needed |
| ColdClasses.ReplaySucceedsIff | crates/jaiba-memory/src/cold.rs:506-530 | a log of one class is replayed exactly when no key indexed under another class begins in it as a value |
| ColdClasses.SegmentOpensIff | crates/jaiba-memory/src/cold.rs:436-466 | the same for opening a segment with any bytes: what counts is what salvage keeps, even if a first scan was aborted |
| ColdClasses.DirOpensIff | crates/jaiba-memory/src/cold.rs:430-470 | the same for a directory of segments |
| ColdClasses.OpensIff | crates/jaiba-memory/src/cold.rs:422-473 | a disk whose directories hold one class each opens in a given order if and only if every key that starts alive in a directory visited, while an earlier one was the last to mention it and left it alive, has the same class in both |
| ColdClasses.SourceOpensIff | crates/jaiba-memory/src/cold.rs:422-473 | the order of the source, by name: the disk opens if and only if no two directories of different classes, one before the other by name, hold a key that the first leaves alive, that nothing between them mentions, and that starts alive in the second |
| ColdClasses.OpensInEveryOrderIff | crates/jaiba-memory/src/cold.rs:422-473 | it opens in every order if and only if no key that ends alive in one directory begins alive in one of another class |
| ColdClasses.RunReopensIff | crates/jaiba-memory/src/cold.rs:198-376 | after every run of puts, removes and reopenings from the empty store, with keys under whatever classes they were put: reopening works in the order of the source, in any given order, and in all orders, exactly under these three conditions |
| ColdClasses.ClassChangeBlocksReopening | crates/jaiba-memory/src/cold.rs:355-376 | putting a key, removing it, and putting it under a class with another directory, all accepted from the empty store, leaves the key readable and files that the source opens again exactly if the first directory comes before the second by name |
| ColdNames.NameOrderIsIdOrder | crates/jaiba-memory/src/cold.rs:736-755 | for all 64-bit ids, sorting the zero-padded file names is sorting the ids, and a name gives its id back |
| ColdNames.NameLayout | crates/jaiba-memory/src/cold.rs:736-738 | a segment file is called segment-, twenty digits, .jmc |
| ColdStore.ReadFrame | crates/jaiba-memory/src/cold.rs:485-530 | the stream reader accepts, at any offset, exactly what the slice parser accepts, and tells a torn tail from damage |
| ColdStore.ScanSegment | crates/jaiba-memory/src/cold.rs:475-548 | the offset loop computes the scan of the whole file |
| ColdStore.SalvageSegment | crates/jaiba-memory/src/cold.rs:587-636 | the salvage loop terminates and computes kept and dropped bytes |
| ColdStore.OpenFile | crates/jaiba-memory/src/cold.rs:436-466 | scan, then cut, or salvage and rescan |
| ColdStore.OpenDirectory | crates/jaiba-memory/src/cold.rs:430-470 | the loop over the segments of one class directory |
| ColdStore.RebuildIndex | crates/jaiba-memory/src/cold.rs:422-473 | the loop over class directories |
| ColdStore.RebuildKeepsOrder | crates/jaiba-memory/src/cold.rs:740-755 | rebuilding keeps segments in id order, on which the writers rely |
| ColdStore.Open | crates/jaiba-memory/src/cold.rs:171-192 | opening builds the store whose state is the rebuilt one, with empty caches, or no store at all |
| ColdStore.SegmentedColdStore.constructor | crates/jaiba-memory/src/cold.rs:171-192 | a segment limit below 4096 is raised to it; caches start empty |
| ColdStore.SegmentedColdStore.WriterForClass | crates/jaiba-memory/src/cold.rs:282-302 | the cached or newly opened writer stands at the end of the last segment of its class |
| ColdStore.SegmentedColdStore.AppendRecord | crates/jaiba-memory/src/cold.rs:198-280 | the append with its writer cache does what the cache-free specification says |
| ColdStore.SegmentedColdStore.WriteRecord | crates/jaiba-memory/src/cold.rs:236-280 | rotate, drop the cached map, write, advance: the files change at the specified target only |
| ColdStore.SegmentedColdStore.MapSegment | crates/jaiba-memory/src/cold.rs:328-345 | a cached mapping is never older than its file |
| ColdStore.SegmentedColdStore.ReadLocation | crates/jaiba-memory/src/cold.rs:304-326 | reading finds the same bytes with memory maps on or off, after any interleaving of reads, appends and rotations |
| ColdStore.SegmentedColdStore.Get | crates/jaiba-memory/src/cold.rs:348-353 | get with caches is get without |
| ColdStore.SegmentedColdStore.Put | crates/jaiba-memory/src/cold.rs:355-367 | put with caches is put without |
| ColdStore.SegmentedColdStore.Remove | crates/jaiba-memory/src/cold.rs:369-376 | remove with caches is remove without |
| ColdStore.WriteKeepsCaches | crates/jaiba-memory/src/cold.rs:236-275 | a write to one class leaves the writers and maps of all others right |
| HotSpec.GreedyIsOrdered | crates/jaiba-memory/src/hot.rs:143-177 | victims come out distinct, in non-decreasing eviction order, and no survivor of the pool precedes any victim |
| HotSpec.ExhaustedMeansInadmissible | crates/jaiba-memory/src/hot.rs:143-194 | with every evictable entry taken and still no room, the pinned entries alone do not leave room, and the failing bound is named |
| HotSpec.EnoughMeansAdmissible | crates/jaiba-memory/src/hot.rs:143-194 | a choice of victims that makes room shows that the write fits |
| HotSpec.CommitKeepsBounds | crates/jaiba-memory/src/hot.rs:197-206 | a committed write keeps the entry and byte bounds |
| HotAnswers.EvictionOrder | crates/jaiba-memory/src/hot.rs:149-160 | lower priority goes first, then fewer accesses, then more bytes, then the older access |
| HotAnswers.EvictionOrderIsWeak | crates/jaiba-memory/src/hot.rs:149-160 | this is a strict weak order |
| HotAnswers.FitsIff | crates/jaiba-memory/src/hot.rs:110-182 | only critical entries keep a write out: it fits exactly if the other live ones leave its bytes free and, unless it replaces a live entry, a place |
| HotAnswers.BytesOf | crates/jaiba-memory/src/hot.rs:80-91 | an entry takes the length of its key and of its JSON text |
| HotAnswers.VictimsAreExpendable | crates/jaiba-memory/src/hot.rs:140-150 | a victim is live, not critical, and not the key written |
| HotAnswers.VictimsAreNeeded | crates/jaiba-memory/src/hot.rs:132-182 | the victims suffice, and without the last of them the bytes or the places would not |
| HotAnswers.CommitLeaves | crates/jaiba-memory/src/hot.rs:200-208 | an admitted write leaves its entry and every live entry that is no victim |
| HotAnswers.WrittenEntryIsIdleIff | crates/jaiba-memory/src/hot.rs:183-198 | an admitted write is idle exactly from demote_after on, until its ttl is over, unless it is critical |
| HotAnswers.IdleIff | crates/jaiba-memory/src/hot.rs:236-250 | the idle entries: live, not critical, not read for their window |
| HotTier.MinVictim | crates/jaiba-memory/src/hot.rs:284-301 | the chosen entry is one that no other of the pool precedes |
| HotTier.TakeInOrder | crates/jaiba-memory/src/hot.rs:236-275 | the first entries of the pool in eviction order, as many as asked for |
| HotTier.SelectVictims | crates/jaiba-memory/src/hot.rs:143-177 | the victim loop stops with room or with nothing evictable left; its victims are greedy and, without the last one, a bound would be violated |
| HotTier.HotStore.constructor | crates/jaiba-memory/src/hot.rs:62-75 | a capacity of zero is taken as one |
| HotTier.HotStore.PrepareUpsert | crates/jaiba-memory/src/hot.rs:110-195 | exact admission: accepted if and only if the value serialises and the pinned entries leave room; victims right; each refusal with its own error; the entry lives for the ttl of its class and is idle from demote_after on |
| HotTier.HotStore.CommitUpsert | crates/jaiba-memory/src/hot.rs:197-206 | purge, drop the victims, insert: the new contents and counters, both bounds kept |
| HotTier.HotStore.PurgeExpired | crates/jaiba-memory/src/hot.rs:277-282 | exactly the live entries stay |
| HotTier.HotStore.Get | crates/jaiba-memory/src/hot.rs:208-219 | a read purges, answers with the live value, marks the access and changes no value |
| HotTier.HotStore.Remove | crates/jaiba-memory/src/hot.rs:221-223 | removes the key and answers whether it was there |
| HotTier.HotStore.Restore | crates/jaiba-memory/src/hot.rs:225-228 | puts the entry back, unchecked |
| HotTier.HotStore.ReclaimOne | crates/jaiba-memory/src/hot.rs:230-234 | gives up the first live evictable entry, or none if there is none |
| HotTier.HotStore.ReclaimIdle | crates/jaiba-memory/src/hot.rs:236-275 | takes up to the limit of idle entries in eviction order, all of them if fewer |
| Tiers.Backend.Get | crates/jaiba-memory/src/warm.rs:18-27 | a backend read answers its copy, or fails exactly when the fault schedule says that this call does |
| Tiers.Backend.Put | crates/jaiba-memory/src/warm.rs:18-27 | a backend write takes effect, or fails without effect exactly when this call is scheduled to; the no-op backend stores nothing |
| Tiers.Backend.Remove | crates/jaiba-memory/src/warm.rs:18-27 | a backend removal takes effect, or fails without effect exactly when this call is scheduled to |
| Tiers.Sink.Persist | crates/jaiba-memory/src/sink.rs:23-47 | the sink accepts the record at the end of its log, or fails without effect exactly when this call is scheduled to |
| Deferred.EnqueueLosesNothing | crates/jaiba-memory/src/deferred.rs:48-65 | enqueueing replaces the pending record of its key: the last record enqueued is pending |
| Deferred.PersistOne | crates/jaiba-memory/src/manager.rs:879-901 | each record the sink accepts during a flush keeps the account of what is pending, in flight or accepted last |
| Deferred.RequeueLosesNothing | crates/jaiba-memory/src/deferred.rs:91-106 | putting back the rest of a failed batch loses no record and lets none be overtaken |
| Deferred.DueIff | crates/jaiba-memory/src/deferred.rs:67-75 | due is everything when forced, and otherwise what has waited for its interval |
| Deferred.DeferredQueue.constructor | crates/jaiba-memory/src/deferred.rs:25-32 | a capacity of zero is taken as one |
| Deferred.DeferredQueue.Enqueue | crates/jaiba-memory/src/deferred.rs:48-65 | replaces or adds the record of its key and asks for a flush exactly when the queue is full |
| Deferred.DeferredQueue.TakeReady | crates/jaiba-memory/src/deferred.rs:67-89 | takes out the due records, each once, in the byte order of their keys; a record stays exactly if nothing is forced and its interval, not zero, is not over |
| Deferred.DeferredQueue.RequeueFailed | crates/jaiba-memory/src/deferred.rs:91-106 | puts records back, due at once, each in place of what is pending under its key |
| Coherence.DemoteAll | crates/jaiba-memory/src/manager.rs:680-744 | demoting any victims keeps the tiers in agreement and saves each of them below |
| Coherence.EvictSaved | crates/jaiba-memory/src/manager.rs:651-664 | saved entries may leave Hot |
| Coherence.InsertInHot | crates/jaiba-memory/src/manager.rs:651-664 | a value that enters Hot becomes the last value of its key |
| Coherence.MirrorLast | crates/jaiba-memory/src/manager.rs:484-500 | copying the last value of a key to its own tier is harmless |
| Coherence.RemoveEverywhere | crates/jaiba-memory/src/manager.rs:538-544 | a key removed from every tier has no value left |
| Coherence.StartIsCoherent | crates/jaiba-memory/src/manager.rs:282-324 | tiers whose copies are where their classes put them are a coherent start |
| Coherence.DemotionGoes | crates/jaiba-memory/src/manager.rs:680-744 | a demotion puts a frozen class into Frozen, a cached Cold class into Cold, a cached Warm class into Warm, unless that tier stores nothing, and touches no other tier |
| Coherence.SavesIff | crates/jaiba-memory/src/manager.rs:680-744 | a demotion fails exactly if the one tier it calls fails |
| Coherence.BackingIff | crates/jaiba-memory/src/manager.rs:638-650 | which tier keeps the entries of a class, by its policy and temperature alone |
| Coherence.NoFaultsSaveAll | crates/jaiba-memory/src/manager.rs:651-664 | when no call to a tier is scheduled to fail, every victim is saved |
| Coherence.NoFaultsAcceptAll | crates/jaiba-memory/src/manager.rs:879-901 | when no call to the sink is scheduled to fail, the whole batch is accepted |
| ManagerSteps.FlushLosesNothing | crates/jaiba-memory/src/manager.rs:879-901 | a flush that stops at any record loses no deferred write and lets none be overtaken |
| ManagerSteps.FlushKeepsSink | crates/jaiba-memory/src/manager.rs:879-901 | flushes do not disturb what the sink holds of persisted classes |
| ManagerSteps.ForcedFlushEmpties | crates/jaiba-memory/src/manager.rs:879-901 | a forced flush that succeeds empties the queue |
| ManagerSteps.RefusalKeepsAgreement | crates/jaiba-memory/src/manager.rs:449-465 | a refused write leaves Hot, sink and queue as they were and adds to lower tiers only values still in Hot |
| ManagerSteps.VisibleKeepsTiers | crates/jaiba-memory/src/manager.rs:651-664 | a committed write keeps the tiers in agreement |
| ManagerSteps.PersistThenVisible | crates/jaiba-memory/src/manager.rs:449-465 | a durable value is in the sink when it becomes visible in Hot |
| ManagerSteps.WriteKeepsTiers | crates/jaiba-memory/src/manager.rs:437-514 | every visible write, whatever fails after it, keeps the tiers in agreement and makes its value the last one |
| ManagerSteps.WriteKeepsSink | crates/jaiba-memory/src/manager.rs:437-514 | every visible write keeps the queue and the sink in agreement |
| ManagerSteps.DeferredWriteLeavesRoom | crates/jaiba-memory/src/manager.rs:466-482 | a deferred write that succeeds leaves fewer than max_pending items |
| ManagerSteps.AgreementShows | crates/jaiba-memory/src/manager.rs:415-536 | agreement of the tiers, key by key: only the tier of its class holds copies, and Hot or else that tier holds the last value |
| ManagerSteps.SinkAgreementShows | crates/jaiba-memory/src/manager.rs:437-516 | agreement of the sink, key by key: the last record enqueued is pending or the last one accepted; a persisted value in Hot is the last one accepted |
| ManagerSteps.PromotionKeepsAgreement | crates/jaiba-memory/src/manager.rs:766-836 | a promotion, taken by Hot or not, keeps everything in agreement |
| ManagerSteps.ReadIsLast | crates/jaiba-memory/src/manager.rs:520-536 | a read answers the last value committed to Hot for its key, or nothing; and nothing if and only if there is none, or Hot has no copy and the read of the tier of the key fails |
| ManagerSteps.EvictionKeepsAgreement | crates/jaiba-memory/src/manager.rs:666-678 | evictions, cut short anywhere, keep everything in agreement |
| ManagerSteps.RemovalKeepsAgreement | crates/jaiba-memory/src/manager.rs:538-544 | a removal carried out by every tier keeps everything in agreement |
| ManagerSteps.FailedRemovalAgreesIff | crates/jaiba-memory/src/manager.rs:538-544 | after a removal that failed in the tier of the key, the tiers agree on the key if and only if that tier held no copy, and a read answers exactly the copy it still holds |
| ManagerSteps.ExpiryAgreesIff | crates/jaiba-memory/src/hot.rs:277-282 | after an entry expired out of Hot, the tiers agree on its key if and only if its tier already held the last value, and a read answers exactly what the tier holds: the last value if and only if it is there and can be read |
| ManagerAnswers.FlushLeavesUndue | crates/jaiba-memory/src/manager.rs:879-901 | a flush that is not stopped leaves exactly the records whose interval is not over, and a forced one none |
| ManagerAnswers.FlushSendsDue | crates/jaiba-memory/src/manager.rs:879-901 | what is sent is what is due, each record once, as it was pending |
| ManagerAnswers.FailedFlushLeaves | crates/jaiba-memory/src/manager.rs:890-898 | what the sink did not take is pending again and due at once; the rest is as it was |
| ManagerAnswers.ReadFinds | crates/jaiba-memory/src/manager.rs:520-536 | below Hot a read answers the copy of Warm, or else of Cold, or else of Frozen, skipping tiers that fail |
| ManagerAnswers.RemovalLeaves | crates/jaiba-memory/src/manager.rs:539-545 | each tier loses its copy unless its own call fails |
| ManagerAnswers.OkUpsertCopies | crates/jaiba-memory/src/manager.rs:482-513 | an upsert that answers Ok is in Hot, and a cached Warm class has its copy in Warm, a frozen class in Frozen |
| ManagerAnswers.OkUpsertPersists | crates/jaiba-memory/src/manager.rs:450-466 | an immediate or persistent upsert that answers Ok adds its one record to the sink |
| ManagerAnswers.OkUpsertEnqueues | crates/jaiba-memory/src/manager.rs:467-481 | a deferred upsert that answers Ok replaces what is pending under its key, then sends everything if the queue is full, and otherwise what is due |
| ManagerAnswers.OkUpsertFlushes | crates/jaiba-memory/src/manager.rs:482-501 | a volatile or cached one sends what is due and enqueues nothing |
| ManagerAnswers.VisibleIff | crates/jaiba-memory/src/manager.rs:437-516 | a write is visible exactly if Hot can take it, every victim is saved and, for a durable class, the sink is there and takes it |
| ManagerAnswers.CalmUpsertSucceedsIff | crates/jaiba-memory/src/manager.rs:437-516 | when nothing fails, an upsert answers Ok exactly if Hot can take it and a durable class has a sink |
| Manager.MemoryManager.constructor | crates/jaiba-memory/src/manager.rs:282-324 | a manager over well-placed tiers starts in agreement |
| Manager.MemoryManager.DemoteOrDrop | crates/jaiba-memory/src/manager.rs:680-756 | a demotion goes to the tier of the class, or fails without effect exactly when the one call it makes fails |
| Manager.MemoryManager.DemoteVictims | crates/jaiba-memory/src/manager.rs:651-664 | victims are demoted in turn up to the first call that fails, and no further |
| Manager.MemoryManager.MakeRoom | crates/jaiba-memory/src/manager.rs:651-664 | admission and demotions with Hot untouched; refused by Hot exactly when the value does not fit, and by a backend exactly when a demotion fails |
| Manager.MemoryManager.HotUpsert | crates/jaiba-memory/src/manager.rs:651-664 | a write to Hot is carried out with the right victims, all saved first, exactly if the value fits and no demotion fails; otherwise Hot is as it was |
| Manager.MemoryManager.PersistNow | crates/jaiba-memory/src/manager.rs:866-877 | the sink has one more record, or this call fails without effect; a missing sink has its own error |
| Manager.MemoryManager.SendBatch | crates/jaiba-memory/src/manager.rs:879-901 | records are sent in turn up to the first call that fails, and no further |
| Manager.MemoryManager.FlushDeferredAt | crates/jaiba-memory/src/manager.rs:879-901 | what is due leaves the queue in key order, the records before the first call that fails reach the sink, the rest goes back |
| Manager.MemoryManager.PersistFirst | crates/jaiba-memory/src/manager.rs:449-465 | room, then the sink, with Hot still untouched; each way to fail has its own cause and error |
| Manager.MemoryManager.WriteDurable | crates/jaiba-memory/src/manager.rs:449-465 | immediate and persistent classes: persisted and visible exactly if the value fits, every demotion works and the sink takes the record; otherwise refused with no visible effect |
| Manager.MemoryManager.FollowUp | crates/jaiba-memory/src/manager.rs:466-500 | after a visible write: enqueue and flush, or mirror, or flush what is due, as the class says; it fails exactly when the mirror or a call of the flush does |
| Manager.MemoryManager.QueueOrMirror | crates/jaiba-memory/src/manager.rs:466-500 | the first half of it: the record is enqueued and a full queue forces the flush, or the value is mirrored unless that call fails |
| Manager.MemoryManager.WriteVisible | crates/jaiba-memory/src/manager.rs:466-500 | the other classes: Hot first, then what follows; visible exactly if the value fits and every demotion works |
| Manager.MemoryManager.WriteByPolicy | crates/jaiba-memory/src/manager.rs:437-500 | the write as the durability of its class wants it, its outcome decided by Hot and by the calls that fail |
| Manager.MemoryManager.ArchiveCopy | crates/jaiba-memory/src/manager.rs:500-514 | the copy that classes archived to Frozen write on every upsert, or nothing exactly when that call fails |
| Manager.MemoryManager.UpsertAt | crates/jaiba-memory/src/manager.rs:437-514 | upsert is refused without effect on Hot, sink and queue, or visible with every effect its policy says; agreement kept either way; which of the two, and how far the effects get, is decided exactly by what fits in Hot and by the heads of the fault schedules |
| Manager.MemoryManager.PromoteFrom | crates/jaiba-memory/src/manager.rs:766-836 | a lower hit is the answer whether Hot takes it or not, and nothing is the answer exactly if the tier has no copy or this read fails; a hit of a known class is offered to Hot |
| Manager.MemoryManager.FindBelow | crates/jaiba-memory/src/manager.rs:520-536 | Warm, Cold, Frozen in this order; the first copy in a tier whose read does not fail is the answer |
| Manager.MemoryManager.GetAt | crates/jaiba-memory/src/manager.rs:520-536 | read coherence of one read: the last value, or nothing exactly if there is none or Hot has no copy and the read of the tier of its class fails; and a flush first, after which nothing overdue is pending if the sink took all |
| Manager.MemoryManager.Remove | crates/jaiba-memory/src/manager.rs:538-544 | removes from Hot and from every tier whose call does not fail, and answers whether any of these held the key |
| Manager.MemoryManager.RemoveBelow | crates/jaiba-memory/src/manager.rs:538-544 | each lower tier drops its copy and says whether it had one, or keeps it exactly when its call fails |
| Manager.MemoryManager.RestoreFrom | crates/jaiba-memory/src/manager.rs:666-678 | the entries from the failed one on are back in Hot |
| Manager.MemoryManager.ApplyDemotions | crates/jaiba-memory/src/manager.rs:666-678 | demotes in turn; from the first demotion that fails on, entries go back to Hot |
| Manager.MemoryManager.DemoteIdleAt | crates/jaiba-memory/src/manager.rs:758-764 | idle entries leave Hot only when saved below, up to the first demotion that fails |
| Manager.MemoryManager.ReclaimUnderPressure | crates/jaiba-memory/src/manager.rs:557-569 | the first evictable entry is saved and gone, or its own backend call failed and it is still there |
| Manager.MemoryManager.NotifyPressure | crates/jaiba-memory/src/manager.rs:557-569 | everything pending is flushed before anything is given up; a sink call that fails stops it |
| Manager.PressureGivesUpOne | crates/jaiba-memory/src/manager.rs:557-569 | under pressure Hot gives up one live entry that is not critical, and answers false exactly if there is none |
| Manager.MemoryManager.Poll | crates/jaiba-memory/src/manager.rs:578-585 | flushes what is due, after which nothing overdue is pending; then, if no sink call failed, demotes 64 idle entries, or all of them if fewer, as far as the backends allow |
| Manager.MemoryManager.Flush | crates/jaiba-memory/src/manager.rs:572-576 | succeeds exactly when the sink takes every record, and then leaves the queue empty |
| ManagerRuns.StepKeepsAgreement | crates/jaiba-memory/src/manager.rs:437-585 | every step of the manager keeps both agreements; only writes and removals change a last value |
| ManagerRuns.RunKeepsSink | crates/jaiba-memory/src/manager.rs:437-585 | over every run, with failures anywhere: no deferred write is lost or overtaken, and Hot shows of a persisted class what the sink accepted last; key by key, by the policy of the class |
| ManagerRuns.RunKeepsTiers | crates/jaiba-memory/src/manager.rs:437-585 | over every run in which no deadline passes and removals reach every tier, the tiers agree, key by key, by policy and temperature of the class, and the last values are those of the last visible writes |
| ManagerRuns.ReadAfterRun | crates/jaiba-memory/src/manager.rs:520-536 | multi-tier read coherence: after such a run a read of a key whose class is kept in a tier answers the last visible write, or nothing; and nothing if and only if there is none, or Hot has no copy and the next call to that tier fails |
| ManagerRuns.StepKeepsBounds | crates/jaiba-memory/src/hot.rs:110-282 | every step keeps both bounds of Hot |
| ManagerRuns.RunKeepsBounds | crates/jaiba-memory/src/hot.rs:110-282 | over every run, with timestamps in any order, Hot holds at most max_entries entries and max_hot_bytes bytes |
| ManagerTrace.RunsJoin | crates/jaiba-memory/src/manager.rs:437-585 | runs that meet are one run, calm if both are, with the last writes of one after the other |
| ManagerTrace.Perform | crates/jaiba-memory/src/manager.rs:437-585 | whatever call a program makes, the manager goes through a run from its old state to its new one |
| ManagerCopies.StepKeepsCopy | crates/jaiba-memory/src/manager.rs:437-585 | every step keeps the last value of a key in the tier of its class, whatever expires, if it copies its writes of the key and its removals of the key reach the tier |
| ManagerCopies.RunKeepsCopy | crates/jaiba-memory/src/manager.rs:437-585 | over every run, deadlines passing at any point, a key whose writes were all copied to its tier has its last visible write there |
| ManagerCopies.CopiedReadIsLast | crates/jaiba-memory/src/manager.rs:520-536 | a read of such a key answers the last visible write whatever has expired, and nothing exactly if there is none, or Hot has no live copy and the call to its tier fails |
| ManagerCopies.StartHolds | crates/jaiba-memory/src/manager.rs:282-324 | a manager that starts over well-placed tiers starts so for every key |
| StaleReads.ExpiryBringsBackOldValue | crates/jaiba-memory/src/hot.rs:277-282 | concrete run: written, demoted, written again, expired; the next read answers the first value |
| StaleReads.FailedRemovalBringsBackOldValue | crates/jaiba-memory/src/manager.rs:538-544 | concrete run: written, demoted, removed while Cold fails; the next read answers the removed value |
| FlowGraph.CollectIds | crates/jaiba-core/src/graph.rs:47-62 | finds the first repeated identifier, or the set of all |
| FlowGraph.CollectEdges | crates/jaiba-core/src/graph.rs:64-91 | finds the first dangling edge, or counters and adjacency lists that count every edge, parallel ones and self-loops too |
| FlowGraph.CountSplit | crates/jaiba-core/src/graph.rs:99-110 | placing a node lowers the counter of each node by exactly its edges to it |
| FlowGraph.Decrement | crates/jaiba-core/src/graph.rs:103-106 | no counter underflows |
| FlowGraph.Place | crates/jaiba-core/src/graph.rs:99-101 | a node taken from the worklist has all its predecessors placed, is placed once, and the worklist keeps holding the ready nodes |
| FlowGraph.Release | crates/jaiba-core/src/graph.rs:102-110 | the inner loop restores the counters and enqueues the nodes that became ready |
| FlowGraph.OrderExcludesCycles | crates/jaiba-core/src/graph.rs:43-116 | a topological order exists only for acyclic graphs |
| FlowGraph.StuckMeansCycle | crates/jaiba-core/src/graph.rs:112-114 | nodes that each wait for another of them contain a cycle |
| FlowGraph.LeftoverIsCyclic | crates/jaiba-core/src/graph.rs:112-114 | an empty worklist with nodes left over means a cycle; with none left over, all nodes are placed |
| FlowGraph.WellFormedIff | crates/jaiba-core/src/graph.rs:43-75 | what passes validation, in terms of processors and connections |
| FlowGraph.CyclicIff | crates/jaiba-core/src/graph.rs:93-116 | what a cycle is, in terms of connections |
| FlowGraph.TopologicalIff | crates/jaiba-core/src/graph.rs:93-116 | in a topological order the source of every connection stands before its destination |
| FlowGraph.Sort | crates/jaiba-core/src/graph.rs:93-111 | the worklist loop, for any initial order, places all nodes in topological order or shows a cycle |
| FlowGraph.Build | crates/jaiba-core/src/graph.rs:43-116 | one exact outcome per input: empty, first repeated identifier, first dangling edge, then a topological order if and only if the graph is acyclic, else Cycle |
| FlowRecord.NextIsLength | crates/jaiba-server/src/flow_registry.rs:77-80 | version numbers run 1, 2, 3, without gaps |
| FlowRecord.ActivatedAt | crates/jaiba-server/src/flow_registry.rs:486-510 | activation archives the old active version, deploys the new one and touches no other |
| FlowRecord.ActivatedIsSound | crates/jaiba-server/src/flow_registry.rs:486-510 | activation keeps at most one DEPLOYED version, the active one, and every once-deployed inactive version ARCHIVED |
| FlowRecord.SeededIsSound | crates/jaiba-server/src/flow_registry.rs:567-599 | so does seeding |
| FlowRecord.ValidatedIsSound | crates/jaiba-server/src/flow_registry.rs:264-279 | so does validation |
| FlowRecord.RetiredIsSound | crates/jaiba-server/src/flow_registry.rs:303-317 | so does archiving |
| FlowRecord.DraftedIsSound | crates/jaiba-server/src/flow_registry.rs:228-252 | so does a draft, which gets the next number |
| FlowRecord.TargetIsHighest | crates/jaiba-server/src/flow_registry.rs:349-373 | the rollback search finds the highest-numbered candidate, if there is one |
| FlowRecord.TargetOfSound | crates/jaiba-server/src/flow_registry.rs:349-373 | the target is the highest-numbered once-deployed version that is not active, it is ARCHIVED, and it exists exactly if there is one |
| FlowRecord.RollbackTwice | crates/jaiba-server/src/flow_registry.rs:349-373 | from the highest deployed version, two rollbacks come back to it |
| FlowRecord.RollbackReturnsIff | crates/jaiba-server/src/flow_registry.rs:340-375 | after the version n was activated, the target is the version active before it if and only if no version with a higher number, other than n, was ever deployed |
| FlowRegistry.StepKeepsInv | crates/jaiba-server/src/flow_registry.rs:214-540 | every registry call, whatever fails in it, keeps: versions sound, running entry = active version with its source; and only extends history (numbers, sources, checksums, notes never change) |
| FlowRegistry.RunKeepsInv | crates/jaiba-server/src/flow_registry.rs:214-611 | the same over every run, restarts included |
| FlowRegistry.FailedDeploymentIsInvisible | crates/jaiba-server/src/flow_registry.rs:377-484 | a failed deploy or rollback changes no record, no saved file and no running version of any flow, and does not touch other flows at all |
| FlowRegistry.DeployMarks | crates/jaiba-server/src/flow_registry.rs:486-510 | a successful deploy makes its version active and once-deployed |
| FlowRegistry.RollbackTargetIff | crates/jaiba-server/src/flow_registry.rs:342-375 | rollback lacks a target exactly when every once-deployed version is the active one |
| FlowRegistry.TwoDeploysAllowRollback | crates/jaiba-server/src/flow_registry.rs:342-375 | after two successful deploys of different versions, with any calls between and after, rollback finds a target |
| FlowRegistry.RollbackUndoesDeployIff | crates/jaiba-server/src/flow_registry.rs:340-375 | a successful deploy and a successful rollback come back to the version that was active before if and only if no version with a higher number, other than the one deployed, was ever deployed |
| FlowRegistry.RollbackSkipsLatest | crates/jaiba-server/src/flow_registry.rs:340-375 | concrete run from the empty registry: versions 3, 1 and 2 are deployed in this order, and rollback goes to 3, although 1 was deployed last before 2 |
| FlowRegistry.StepKeepsCapacity | crates/jaiba-server/src/flow_registry.rs:414-423 | the number of running flows grows past the limit, by one, exactly by a seeding of a flow that does not run while the limit is reached |
| FlowRegistry.RunKeepsCapacity | crates/jaiba-server/src/flow_registry.rs:414-423 | the limit holds after every call of a run, seedings included, if and only if no seeding of the run is of that kind |
| FlowRegistry.RunFromStart | crates/jaiba-server/src/flow_registry.rs:133-140 | a registry that starts empty keeps the invariant for ever, and the limit too while its seedings fit |
| FlowRegistry.OkIsDurable | crates/jaiba-server/src/flow_registry.rs:168-188 | a metadata call that answers Ok is what a restart finds |
| FlowAnswers.ActivationAnswers | crates/jaiba-server/src/flow_registry.rs:377-484 | an activation answers Ok exactly if the version exists, may be activated and parses, and the place, the repository, the old instance and the new one let it through; and what each other answer means |
| FlowAnswers.DeployAnswers | crates/jaiba-server/src/flow_registry.rs:329-338 | when a deployment answers Ok, by the state of the version, the running flows and the faults |
| FlowAnswers.RollbackAnswers | crates/jaiba-server/src/flow_registry.rs:342-375 | when a rollback does, and to which version it goes |
| FlowAnswers.MetadataAnswers | crates/jaiba-server/src/flow_registry.rs:214-322 | when a draft, a validation and an archiving answer Ok |
| FlowAnswers.StopAnswers | crates/jaiba-server/src/flow_registry.rs:528-611 | when stopping and seeding do, and what stopping leaves |
| FlowAnswers.DraftLeaves | crates/jaiba-server/src/flow_registry.rs:228-252 | a draft is appended with the next number, its source, checksum and note |
| FlowAnswers.ValidationLeaves | crates/jaiba-server/src/flow_registry.rs:264-279 | a validation changes the state and date of its version alone |
| FlowAnswers.ArchivingLeaves | crates/jaiba-server/src/flow_registry.rs:303-317 | an archiving changes the state and date of its version, which is active no more |
| FlowAnswers.ActivationLeaves | crates/jaiba-server/src/flow_registry.rs:450-518 | a deployment or rollback changes its record as activation does, runs the flow exactly if it was to start, and touches no other flow |
| FlowAnswers.FailedActivationLeaves | crates/jaiba-server/src/flow_registry.rs:400-484 | a failed one leaves the old instance running, and up exactly if it was found up or could be started again |
| FlowAnswers.SeedingLeaves | crates/jaiba-server/src/flow_registry.rs:560-611 | seeding appends a DEPLOYED version that is active and runs; the one active before is ARCHIVED |
| FlowAnswers.RestartLeaves | crates/jaiba-server/src/flow_registry.rs:147-166 | a restart finds the saved records and nothing running |
| FlowRegistry.ReplyTellsWhatHappened | crates/jaiba-server/src/flow_registry.rs:214-322 | a metadata call answers Ok exactly if it is not refused and its save works; an Err that is not Internal comes exactly from a refusal and then nothing changed; Internal means that only the save failed |
| FlowRegistry.FailedSaveKeepsChange | crates/jaiba-server/src/flow_registry.rs:168-188 | a metadata call that answers Err because its save failed has changed memory all the same, and a restart loses the change |
| FlowRegistry.ActivationIsDurableIff | crates/jaiba-server/src/flow_registry.rs:512-518 | an activation that answered Ok survives a restart if and only if its save worked or the file said the same before |
| FlowRegistry.DurableIffSaved | crates/jaiba-server/src/flow_registry.rs:512-518 | when the file was not written at this very instant, exactly the activations whose save worked survive a restart |
| FlowRegistry.LifecycleIsRespected | crates/jaiba-server/src/flow_registry.rs:8-10 | every call moves every version along the arrows drawn: DRAFT, VALIDATED, DEPLOYED, ARCHIVED, back from ARCHIVED by rollback only, and re-validation |
| FlowRegistry.RevalidationUndeploys | crates/jaiba-server/src/flow_registry.rs:264-279 | validating the active version makes it VALIDATED while it stays active and running, so active does not imply DEPLOYED |
| FlowRegistry.ActiveStaysDeployedIff | crates/jaiba-server/src/flow_registry.rs:257-285 | an active version that is DEPLOYED leaves a DEPLOYED active version after every call, or none, except if and only if the call validates that version again |
| RegistryStore.Registry.constructor | crates/jaiba-server/src/flow_registry.rs:133-140 | an empty registry; a limit of zero is taken as one |
| RegistryStore.Registry.Persist | crates/jaiba-server/src/flow_registry.rs:168-188 | the file is written whole or not at all; without a directory nothing is saved and nothing fails |
| RegistryStore.Registry.CreateDraft | crates/jaiba-server/src/flow_registry.rs:214-254 | a DRAFT with the next number and the checksum of its source is added to the flow named in it; an unparsable source or empty id changes nothing |
| RegistryStore.Registry.ValidateVersion | crates/jaiba-server/src/flow_registry.rs:257-285 | the version becomes VALIDATED; unknown, unparsable or ARCHIVED ones are refused, in this order, without a change |
| RegistryStore.Registry.ArchiveVersion | crates/jaiba-server/src/flow_registry.rs:288-322 | the version becomes ARCHIVED and is no longer active; the running version is refused |
| RegistryStore.Registry.RestorePrevious | crates/jaiba-server/src/flow_registry.rs:702-740 | the previous entry is back in the map, started again if that works |
| RegistryStore.Registry.Activate | crates/jaiba-server/src/flow_registry.rs:377-525 | for every combination of faults, the staged activation with its compensations ends as the one-step activation does: refused without a trace, failed with the previous entry back, or switched |
| RegistryStore.Registry.MarkDeployed | crates/jaiba-server/src/flow_registry.rs:486-510 | the in-place state changes of an activation |
| RegistryStore.Registry.DeployVersion | crates/jaiba-server/src/flow_registry.rs:329-338 | activation without access to archived versions |
| RegistryStore.Registry.Rollback | crates/jaiba-server/src/flow_registry.rs:342-375 | activation of the highest-numbered other version once deployed |
| RegistryStore.Registry.StopAndUnload | crates/jaiba-server/src/flow_registry.rs:528-543 | the entry leaves the running map, or is back in it when draining fails |
| RegistryStore.Registry.SeedRunning | crates/jaiba-server/src/flow_registry.rs:560-611 | a new DEPLOYED version that is active and running; the old active one is ARCHIVED |
| RegistryStore.HighestCandidate | crates/jaiba-server/src/flow_registry.rs:355-368 | one pass finds the rollback target |
| Secrets.HoldsOnce | crates/jaiba-connection-manager/src/secure.rs:258-307 | a secret file holds at most one map of secrets for a master key |
| Secrets.HoldsIff | crates/jaiba-connection-manager/src/secure.rs:258-307 | what a current file is, field by field: version, key derivation, salt, parameters, canary, entries |
| Secrets.HoldsLegacyIff | crates/jaiba-connection-manager/src/secure.rs:309-345 | what a first-version file is |
| Secrets.ReadEntries | crates/jaiba-connection-manager/src/secure.rs:284-290 | every entry is decrypted and decoded, or the error names an entry that cannot be |
| Secrets.BuildFile | crates/jaiba-connection-manager/src/secure.rs:401-419 | everything is sealed again under the current key; the file holds exactly the secrets and no fingerprint |
| Secrets.Disk.Write | crates/jaiba-connection-manager/src/secure.rs:580-599 | the file is replaced whole or not at all |
| Secrets.EncryptedFileSecretStore.Resolve | crates/jaiba-connection-manager/src/secure.rs:426-434 | the answer is what the entry of the reference in the file decrypts and decodes to under the master key; none exactly if there is no file or no entry |
| Secrets.EncryptedFileSecretStore.Store | crates/jaiba-connection-manager/src/secure.rs:436-455 | memory equals the decoded file afterwards, with the secret if the write worked and unchanged if not |
| Secrets.EncryptedFileSecretStore.Remove | crates/jaiba-connection-manager/src/secure.rs:457-466 | the same without the secret; an unknown reference writes nothing |
| Secrets.EncryptedFileSecretStore.RotateKey | crates/jaiba-connection-manager/src/secure.rs:361-382 | the file opens under the new master key with the same secrets, or nothing changed |
| Secrets.OpenCurrent | crates/jaiba-connection-manager/src/secure.rs:258-307 | a current file is opened exactly if it holds something under the master key |
| Secrets.OpenAndMigrate | crates/jaiba-connection-manager/src/secure.rs:309-357 | a first-version file keeps its secrets through migration, or stays as it was |
| Secrets.Open | crates/jaiba-connection-manager/src/secure.rs:220-256 | opening finds exactly the secrets the file holds |
| Connections.StepKeepsInv | crates/jaiba-connection-manager/src/lib.rs:388-543 | whatever fails, memory equals the saved profiles and names differ by more than ASCII case |
| Connections.LoadRestores | crates/jaiba-connection-manager/src/lib.rs:268-284 | a new manager that loads the file has exactly the profiles in memory |
| Connections.ResolvingIff | crates/jaiba-connection-manager/src/lib.rs:388-543 | whatever fails in a call, every profile still has its secret afterwards if and only if the call is not an accepted plain create or update that names a secret that does not exist |
| Connections.UnrestoredIff | crates/jaiba-connection-manager/src/lib.rs:453-543 | the compensation of a call fails exactly if the call is stuck: its secret could be found and its first outside call worked, what follows is refused or fails, and so does the call that should undo the first |
| Connections.FailureLeaves | crates/jaiba-connection-manager/src/lib.rs:453-543 | a failed call that is not stuck changes nothing; a stuck one leaves exactly one stated thing behind |
| ConnectionAnswers.SucceedsIff | crates/jaiba-connection-manager/src/lib.rs:380-543 | each call succeeds exactly if what it names exists, no other profile has the name in any ASCII case, and the outside calls it needs work |
| ConnectionAnswers.SuccessLeaves | crates/jaiba-connection-manager/src/lib.rs:380-543 | exactly which profiles, file, secrets and status entries a successful call leaves |
| ConnectionAnswers.RefusalMeans | crates/jaiba-connection-manager/src/lib.rs:380-543 | which refusal each missing or clashing thing gets |
| ConnectionAnswers.SameNameIff | crates/jaiba-connection-manager/src/lib.rs:395-397 | names are the same when they differ in the case of ASCII letters alone |
| Connections.DuplicateIsIndependent | crates/jaiba-connection-manager/src/lib.rs:453-482 | deleting one of a duplicated pair leaves the other with the secret |
| Connections.StatusMatchesIff | crates/jaiba-connection-manager/src/lib.rs:505-543 | status entries match the profiles after a call if and only if the call is not a deletion of a profile with its own, resolvable secret that is saved, and then neither removes the secret nor saves the profile back |
| Connections.RunTheorem | crates/jaiba-connection-manager/src/lib.rs:388-543 | over every run memory equals the saved profiles, and a reload restores them |
| Connections.RunResolvesIff | crates/jaiba-connection-manager/src/lib.rs:388-543 | every profile has its secret after every call of a run if and only if no call of it is a create or update of that kind |
| Connections.RunFromStart | crates/jaiba-connection-manager/src/lib.rs:388-543 | and so of every manager that starts empty |
| ConnectionStore.ConnectionManager.PersistProfiles | crates/jaiba-connection-manager/src/lib.rs:286-296 | the snapshot is saved, or not |
| ConnectionStore.ConnectionManager.Upsert | crates/jaiba-connection-manager/src/lib.rs:388-430 | persist first, publish after |
| ConnectionStore.ConnectionManager.Create | crates/jaiba-connection-manager/src/lib.rs:362-379 | a new profile, unless its name or identifier is taken |
| ConnectionStore.ConnectionManager.Update | crates/jaiba-connection-manager/src/lib.rs:381-386 | an existing profile is replaced, unless its new name is taken |
| ConnectionStore.ConnectionManager.Delete | crates/jaiba-connection-manager/src/lib.rs:432-451 | the profile and its status go, in the file first; its secret stays |
| ConnectionStore.ConnectionManager.Duplicate | crates/jaiba-connection-manager/src/lib.rs:455-482 | store, create, and remove again on failure |
| ConnectionStore.ConnectionManager.UpdateWithSecret | crates/jaiba-connection-manager/src/lib.rs:486-502 | store, update, and store back on failure |
| ConnectionStore.ConnectionManager.DeleteWithSecret | crates/jaiba-connection-manager/src/lib.rs:505-543 | save, remove the unshared secret, and save back on failure |
| Frames.LineEnds | crates/jaiba-plugin-sdk/src/lib.rs:496-520 | the newline ends the frame wherever the chunks were cut |
| Frames.TooLargeIff | crates/jaiba-plugin-sdk/src/lib.rs:496-532 | a read reports a frame that is too large if and only if bytes are left and there is no newline among the first ones, up to one more than the limit |
| Frames.ReadAnswers | crates/jaiba-plugin-sdk/src/lib.rs:496-532 | a first line within the limit is the message it decodes to, if it has the one version spoken; each other case has its own error |
| Frames.FrameIsLine | crates/jaiba-plugin-sdk/src/lib.rs:482-494 | a frame is the JSON text and a newline, when the text is within eight mebibytes |
| Frames.Reader.Consume | crates/jaiba-plugin-sdk/src/lib.rs:513 | consuming takes the bytes off the front of the stream |
| Frames.ReadFrame | crates/jaiba-plugin-sdk/src/lib.rs:496-532 | the answer is a function of the stream alone for every way it is cut into chunks; what follows the frame stays; all that was taken from the stream is in the buffer, which never exceeds the limit by more than one byte |
| Frames.Writer.WriteFrame | crates/jaiba-plugin-sdk/src/lib.rs:482-494 | a message that cannot be encoded or is too large is refused before a byte is written; any other is written whole, or up to where the stream breaks; each with its own error |
| Frames.ReadInvertsWrite | crates/jaiba-plugin-sdk/src/lib.rs:482-532 | reading a written frame gives the message back and leaves what followed |
| Frames.SessionOfFrames | crates/jaiba-plugin-sdk/src/lib.rs:482-532 | any number of written messages are read back in order, and reading goes on with what follows |
| Frames.TornFrame | crates/jaiba-plugin-sdk/src/lib.rs:518-523 | a stream that ends inside a frame, however short, is reported as too large |
| Frames.ReadSession | crates/jaiba-plugin-sdk/src/lib.rs:496-532 | reading to the end is a function of the stream alone |
| SqlText.DecimalParses | crates/jaiba-server/src/sql_builder.rs:62-70 | the decimal of a placeholder or limit is read back |
| SqlText.LexOneReads | crates/jaiba-server/src/sql_builder.rs:27-70 | each printed token is read back, whatever follows it apart |
| SqlText.LexInvertsText | crates/jaiba-server/src/sql_builder.rs:27-178 | the text of a statement determines its tokens |
| SqlGrammar.PathInverts | crates/jaiba-server/src/sql_builder.rs:27-51 | a quoted dotted path is read back segment by segment |
| SqlGrammar.ClauseInverts | crates/jaiba-server/src/sql_builder.rs:192-258 | a filter clause is read back with its operator and placeholders |
| SqlGrammar.JoinsInvert | crates/jaiba-server/src/sql_builder.rs:112-123 | joins are read back in order |
| SqlGrammar.SelectInverts | crates/jaiba-server/src/sql_builder.rs:83-178 | the tokens of a statement determine its syntax tree |
| SqlGrammar.SelectPrintable | crates/jaiba-server/src/sql_builder.rs:83-178 | no two tokens of a statement can run into one another |
| SqlGrammar.ReadBackInvertsText | crates/jaiba-server/src/sql_builder.rs:83-178 | the text of a well-formed tree denotes that tree and no other |
| SqlBuilder.PathOfWell | crates/jaiba-server/src/sql_builder.rs:27-51 | what passes as a path consists of stars and plain identifiers |
| SqlBuilder.MeaningIsWellFormed | crates/jaiba-server/src/sql_builder.rs:83-178 | what is compiled is well formed |
| SqlBuilder.PlaceholdersMatchParameters | crates/jaiba-server/src/sql_builder.rs:192-258 | placeholders are numbered 1 to n from left to right, one for each parameter |
| SqlBuilder.ValuesDoNotShow | crates/jaiba-server/src/sql_builder.rs:192-258 | two specifications that differ in values of one shape give one statement, or are refused together |
| SqlBuilder.AcceptedIff | crates/jaiba-server/src/sql_builder.rs:83-258 | exactly what a specification is refused for |
| SqlCompiler.Quote | crates/jaiba-server/src/sql_builder.rs:27-51 | quotes a dotted identifier or refuses it |
| SqlCompiler.QuoteSource | crates/jaiba-server/src/sql_builder.rs:181-190 | an empty schema is no schema |
| SqlCompiler.Bind | crates/jaiba-server/src/sql_builder.rs:214-217 | the parameter is appended and its placeholder carries its number |
| SqlCompiler.CompileFilter | crates/jaiba-server/src/sql_builder.rs:192-258 | the clause text and the values it binds |
| SqlCompiler.CompileFilters | crates/jaiba-server/src/sql_builder.rs:125-132 | clauses in order, parameters in the same order |
| SqlCompiler.CompileJoins | crates/jaiba-server/src/sql_builder.rs:112-123 | joins pushed one by one |
| SqlCompiler.Compile | crates/jaiba-server/src/sql_builder.rs:83-178 | the statement pushed piece by piece is the text of the meaning of the specification, the parameters are the values it binds in order |
| SqlCompiler.CompiledTextReadsBack | crates/jaiba-server/src/sql_builder.rs:83-178 | reading a compiled statement gives back exactly the meaning of the specification |
| SqlMeaning.FilterMeans | crates/jaiba-server/src/sql_builder.rs:192-258 | a compiled filter, with its values bound, is true of exactly the rows that the filter asks for: comparisons, NULL, lists and patterns |
| SqlMeaning.FiltersMean | crates/jaiba-server/src/sql_builder.rs:125-132 | WHERE keeps exactly the rows that satisfy every filter, placeholders resolved by number or by place |
| SqlMeaning.CompiledTextMeans | crates/jaiba-server/src/sql_builder.rs:83-178 | the text of a compiled statement reads back as one tree, which keeps exactly the rows that the specification asks for |
| SqlMeaning.PartsMean | crates/jaiba-server/src/sql_builder.rs:83-178 | columns, tables, joins with kind and sides, groups, orders with direction and limit are those of the specification, one by one |
| SqlMeaning.ContainsIff | crates/jaiba-server/src/sql_builder.rs:233-236 | a Contains filter finds exactly the texts that contain the value if and only if the value has no wildcard in it |
| SqlMeaning.StartsWithIff | crates/jaiba-server/src/sql_builder.rs:237-240 | the same of StartsWith |
| SqlMeaning.PathIs | crates/jaiba-server/src/sql_builder.rs:27-50 | a dotted identifier is its parts between the dots, trimmed, and is refused exactly if one of them is no star and no plain identifier |
| SqlMeaning.StatementText | crates/jaiba-server/src/sql_builder.rs:89-176 | the parts of the text in their order; TOP for SQL Server, LIMIT for the others |
| SqlMeaning.DialectsSpell | crates/jaiba-server/src/sql_builder.rs:27-70 | quotes and placeholders of each dialect |
| SqlMeaning.LikeText | crates/jaiba-server/src/sql_builder.rs:53-60 | ILIKE for PostgreSQL, LIKE for the others |

## Left out

- Real file I/O: `fsync`, `rename`, `mmap`, permissions and temporary names. A disk is a map from class directory and
  segment id to bytes; a rename is atomic; a crash leaves a prefix of the append.
- LZ4, SHA-256, AES-GCM, Argon2, base64, JSON and UTF-8: function values with the round-trip laws that are used.
  Nothing is claimed about collisions, about wrong keys, or about secrecy.
- ColdRuns.RunTheorem: needs one class per key and class directories without collisions; of a key that moves between
  classes ColdClasses says when the store can be opened, not what it answers. Continued use of a store after a partial
  write failed is outside both.
- ColdClasses.RunReopensIff: needs class directories without collisions, where the source takes a digest of the class.
- ColdRecovery.CrashRecovery: needs that the part written embeds no complete record, which the source cannot detect.
- ColdRecovery.DamageLosesOnlyItsRecord: says nothing about the damaged record's own key, for which an older record in
  an earlier place may answer again, as the source documents.
- ColdStore.Open: the listing of a class directory is a sequence of segments in id order, justified by
  ColdNames.NameOrderIsIdOrder; foreign `.jmc` files and the quarantine copies beside salvaged segments are not
  modelled.
- HotTier.HotStore.PrepareUpsert: byte counts are unbounded integers; the saturating additions of the source differ
  only past 2^64 bytes.
- ManagerRuns.RunKeepsTiers: only for runs in which no deadline passes and removals reach every tier.
- ManagerCopies.RunKeepsCopy: only for keys whose visible writes were all copied to their tier, which the manager does
  not attempt for Cold classes.
- ManagerRuns.ReadAfterRun: classes with a rebuild hook and classes whose backend is the no-op one are outside it.
- Manager.MemoryManager.Remove: does not touch the deferred queue, as in the source.
- Tiers.Sink.Persist: a sink line that was written in part is a failure without effect.
- The Redis backend, the name hashing of the frozen files, the flush when a manager is dropped, rebuild hooks,
  counters and snapshots of the memory engine, and the loading of its YAML policy.
- FlowRecord.NextIsLength: version numbers are unbounded, where the source counts in 32 bits.
- FlowRegistry calls are atomic steps; locking, supervisors, metrics, listing, and the shutdown of all flows are left
  out.
- Secrets.OpenCurrent: which of two unreadable entries names the error depends on the order of the entries and is left
  open.
- Connections.UnrestoredIff: a failed compensation has its own error value, where the source reports it as a
  persistence error with both messages.
- Connections: a manager without a repository, import and export, audit entries, events, metadata caches, plugins; the
  order of the saved snapshot (by name) is not modelled, a snapshot is a set.
- Frames.ReadFrame: an I/O error of the reader ends the read and is not modelled.
- Frames: the process behind the plugin, the matching of request identifiers and the validation of responses.
- SqlBuilder.ValuesDoNotShow: the length of a list and whether a value is null do show, as they must.
- SqlMeaning.FilterMeans: how a database compares two values is a parameter; LIKE has no escape character, where
  PostgreSQL and MySQL take a backslash for one and SQL Server has character classes; a cell that is no text fits no
  pattern.
- SqlMeaning.PartsMean: what joins, groups, orders and limits do to the rows is not modelled beyond their tree.
- SqlBuilder: numbers are kept as their decimal text; the optional fields that the compiler leaves empty are left out.
- HTTP and WebSocket handlers, authentication, TLS, the command line, logging, plugin downloads, the scheduler, the
  executor and the user interface: plumbing, or easy members.
