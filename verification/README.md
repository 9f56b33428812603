# OMENbrowser_rs core models

A Dafny model of the stateful and algorithmic cores of OMENbrowser_rs, with proofs of what each is
for. Every module names the source file it models.

- **MessagePack preflight** (`MsgpackGrammar`, `Msgpack`). The grammar of the "Formats" section of the
  MessagePack specification is written as a printer from value trees to bytes; the scanner object is
  proved to accept exactly that language cut by its five limits.
- **Operation history** (`Operations`, `OperationLaws`, `OperationHistory`). The bounded, byte-accounted store: eviction of
  terminal records only, atomic domain snapshots, batched expiry, and the invariant of every run.
- **Plugin transactions** (`PluginNames`, `NameLaws`, `FileTree`, `PluginTransactions`, `PluginSurvival`,
  `PluginInstallRuns`, `PluginHistory`, `PluginDiscovery`, `PluginStore`, `PluginCopy`). Install, remove and recovery as steps on a disk with a crash possible between any two; the transaction
  name codec; the tree copy under a budget. A store object records every disk state it passes through, so
  a contract about its trace is a contract about every crash point.
- **Directory service** (`Directory`, `DirectoryLaws`, `DirectoryPruning`, `DirectoryRuns`,
  `DirectoryLastSeen`, `DirectorySettings`, `DirectoryService`, `PropagationInventory`, `InventoryLaws`). Announces, settings with rollback, pruning, debounced saving and the bounded
  inventory, over whole runs. The clock is a parameter and a publish is all or nothing.
- **Streaming selection** (`StableSort`, `TopK`, `HistorySearch`, `SearchLaws`, `SearchText`, `LogReader`,
  `LogLaws`). Incremental
  retain-and-truncate agrees with sorting everything once.
- **Interface configuration** (`Text`, `InterfaceProfiles`, `InterfaceConfig`, `InterfaceHeader`,
  `InterfaceFixedPoint`, `InterfaceSections`, `InterfaceLaws`, `InterfaceService`). Rendering and reading
  back is a fixed point, every profile field reads back from its section, fresh-name
  searches stop, and the profile list in memory is the list on disk even when writes fail.
- **Edit buffer** (`Utf8`, `InputBuffer`). UTF-8 of RFC 3629 with its strict decoder, and the byte buffer
  with a byte cursor as a refinement of a character zipper.

Objects that the source updates in place are classes whose methods are tied to a function of the old
state; laws over several calls are lemmas about those functions. The `…Laws` modules say what the
vocabulary of those functions (setters, rules, orders, filters, names) means, without using their bodies. `Seqs`, `Ordering`, `Decimal` and
`Common` hold shared vocabulary.

Results where the code falls short of what one might expect, each with its exact extent:

- A plugin whose own id reads as a transaction name passes the id check and can be lost by recovery
  (`PluginSurvival.DottedPluginIsLost`). `PluginSurvival.SurvivesEveryOrderIff` says exactly which entries
  every order of the directory keeps; a plugin whose id does not start with a dot is always among them.
- A refused registry save during installation can leave an incomplete plugin that no recovery touches.
  `PluginInstallRuns.PartialTreeIffRefused` says that this happens after a refused save and never otherwise,
  and that any part of the source can be what is left.
- The order in which discovery visits directories decides which of two directories that claim one id is
  recorded for it; `PluginDiscovery.SameRegistryIff` says when two orders agree. Because discovery sorts,
  the order in which the file system lists the directory does not matter within the limits
  (`PluginDiscovery.DiscoveryIgnoresListingOrder`).
- `last_seen` on disk can be behind memory although no save is pending, and nothing bounds by how much
  (`DirectoryLastSeen.LastSeenLagsWithoutBound`). `DirectoryLastSeen.LastSeenAgreesIff` says when it is not:
  exactly if no announce repeated the entry inside the save cooldown since the last save.
- A reply ticket is lost with the next accepted announce of its entry, in memory and on disk, and only then
  (`DirectorySettings.ReplyTicketLastsIff`); the other accepted settings of a persistent entry last
  (`DirectorySettings.AcceptedSettingLasts`).

## Model

| member | source | states |
|---|---|---|
| `Msgpack.ScanSound` | src/msgpack.rs:52-166 | whatever one pass accepts is the encoding of a well-formed tree of the grammar that respects depth, value-count, container and scalar limits, and the offset and value counter advance by exactly its length and size |
| `Msgpack.ItemsSound` | src/msgpack.rs:121-129 | the same for the elements of a container, including a map's 2n items |
| `Msgpack.ScanComplete` | src/msgpack.rs:52-166 | every well-formed tree within the limits is accepted wherever its encoding stands in the input, whatever follows it |
| `Msgpack.ItemsComplete` | src/msgpack.rs:121-129 | the same for a run of elements |
| `Msgpack.MarkerShape` | src/msgpack.rs:61-118 | the marker table agrees with the grammar: the marker of every tree announces exactly its length field, payload and number of elements |
| `Msgpack.VerdictDecidesAccepted` | src/msgpack.rs:14-39 | the verdict is Ok iff the bytes are one value with nothing trailing inside all five limits |
| `Msgpack.EncodingsArePrefixFree` | src/msgpack.rs:52-129 | no encoding is a proper prefix of another |
| `Msgpack.AcceptedIsPrefixFree` | src/msgpack.rs:14-39 | no accepted string is a proper prefix of another accepted one, under any two sets of limits |
| `Msgpack.BytesBoundTree` | src/msgpack.rs:52-129 | depth, value count, container sizes and scalar charges never exceed the length of the encoding |
| `Msgpack.ValidateMsgpackWithLimits` | src/msgpack.rs:14-39 | the validator returns the verdict, hence Ok iff accepted |
| `Msgpack.MsgpackScanner.Value` | src/msgpack.rs:52-119 | the object follows the specified scan: same error or same offset and counter, with at most min(length, value limit) + 1 entries into `value` even when a header declares about 2^32 items |
| `Msgpack.MsgpackScanner.Body` | src/msgpack.rs:61-118 | the marker dispatch follows the specified scan |
| `Msgpack.MsgpackScanner.Items` | src/msgpack.rs:121-129 | the container loop follows the specified scan and keeps the bound on calls |
| `Msgpack.MsgpackScanner.FixScalar` | src/msgpack.rs:131-136 | a length in the marker is charged against the scalar limit |
| `Msgpack.MsgpackScanner.LongScalar` | src/msgpack.rs:67-90 | a length field is charged, with one more byte for ext8/16/32 |
| `Msgpack.MsgpackScanner.FixContainer` | src/msgpack.rs:63-64 | a map's count is doubled |
| `Msgpack.MsgpackScanner.LongContainer` | src/msgpack.rs:102-117 | array and map counts of 2 or 4 bytes |
| `Msgpack.MsgpackScanner.SkipBytes` | src/msgpack.rs:151-153 | numbers and fixext are skipped without a charge |
| `Msgpack.MsgpackScanner.ReadUint` | src/msgpack.rs:138-145 | reads the big-endian value, or reports truncation and stays put |
| `Msgpack.MsgpackScanner.Take` | src/msgpack.rs:155-166 | advances by exactly what is there, and fails without moving otherwise |
| `Operations.OperationRecordBytes` | src/operations.rs:478-507 | the checked accumulation gives the exact record size, or SizeOverflow iff it exceeds the word |
| `Operations.Validate` | src/operations.rs:200-263 | an accepted record has its exact size within 8 KiB, and one in state Delivered carries authoritative peer-delivery evidence |
| `OperationLaws.ValidateIs` | src/operations.rs:200-263 | the answer for every record: the error of the first rule it breaks, in order (caption of 1 to 1024 bytes and texts within 1024, at most 16 evidence items with details within 1024, at most 4 pairwise different actions, created no later than updated, progress with a positive total and no more completed than that, progress only for the two domains that have one, authoritative peer-delivery evidence for Delivered, 8 KiB), or its size |
| `OperationLaws.DistinctIff` | src/operations.rs:223-233 | comparing the number of actions with the size of their set finds a repetition iff two positions hold the same action |
| `OperationLaws.SizeIs` | src/operations.rs:478-507 | the size is a fixed part, a fixed charge per evidence item and action, and the length of every text, in whatever order they are added up |
| `OperationLaws.StatesAre` | src/operations.rs:107-117 | six states by name are final and the nine others are not |
| `Operations.Evictions` | src/operations.rs:339-353 | the number of front-to-back evictions is the least that makes room, and none is returned only if no number does |
| `Operations.UpsertSucceedsIff` | src/operations.rs:315-361 | upsert succeeds iff the record validates and fits both budgets beside the other unresolved records |
| `Operations.UpsertEvictsLeast` | src/operations.rs:339-360 | it evicts the shortest front-to-back run of other terminal records, keeps all unresolved work in order, appends the record and counts the evictions |
| `Operations.UpsertRefusalIsInert` | src/operations.rs:316-322 | a refusal changes the rejected counter only, and reports the first validation error or HistoryCapacity |
| `Operations.UpsertKeepsValid` | src/operations.rs:315-361 | unique ids, valid records, exact bytes and both budgets survive an upsert |
| `OperationLaws.UpsertKeepsWork` | src/operations.rs:315-361 | no upsert, accepted or refused, drops another record that is in none of the six final states |
| `OperationLaws.UpsertMayEvictFinal` | src/operations.rs:339-353 | a valid record that fits the budgets alone is accepted beside any records in final states |
| `OperationLaws.UpsertAddsOnly` | src/operations.rs:315-361 | an accepted upsert leaves nothing but the record itself and records with other ids that were there |
| `Operations.RemoveKeepsValid` | src/operations.rs:363-370 | and a removal, after which the id is absent |
| `Operations.SnapshotIsAllOrNothing` | src/operations.rs:372-421 | either the domain becomes the snapshot or nothing but the rejected counter changes; other domains' subsequence is untouched either way |
| `Operations.SnapshotIsIdempotent` | src/operations.rs:372-421 | replacing again with the same snapshot gives the same history and result |
| `Operations.SnapshotKeepsValid` | src/operations.rs:372-421 | the invariant survives a snapshot |
| `Operations.ExpireKeepsValid` | src/operations.rs:423-447 | the invariant survives an expiry |
| `Operations.ExpireBatches` | src/operations.rs:423-447 | batch a then batch b at one cutoff is one batch of a + b, in state and in count |
| `Operations.ExpireRepeatedlyClears` | src/operations.rs:423-447 | positive batches reach the history without older terminal records, and remove nothing else |
| `OperationLaws.ExpireDropsOnlyOld` | src/operations.rs:423-447 | an expiry drops only records in one of the six final states that were last updated before the cutoff |
| `OperationLaws.ExpireDropsAll` | src/operations.rs:423-447 | and a batch as large as the history drops all of these |
| `Operations.RunKeepsValid` | src/operations.rs:290-448 | every run of the four operations keeps the invariant and the budgets |
| `Operations.ReachableHistory` | src/operations.rs:200-448 | every reachable history has unique ids, validated records, exact bytes within both budgets, and no Delivered record without authoritative evidence |
| `OperationHistory.OperationHistory.constructor` | src/operations.rs:291-300 | starts as the empty valid history, with limits of at least one |
| `OperationHistory.OperationHistory.Upsert` | src/operations.rs:315-361 | the in-place upsert computes the specified history and result |
| `OperationHistory.OperationHistory.PlanEvictions` | src/operations.rs:330-349 | the scan stops at the first prefix whose evictions make room, with the projected totals exact |
| `OperationHistory.OperationHistory.Remove` | src/operations.rs:363-370 | removes the record with that id and its bytes |
| `OperationHistory.OperationHistory.ReplaceDomainSnapshot` | src/operations.rs:372-421 | the staged replacement computes the specified history and result |
| `OperationHistory.OperationHistory.ExpireTerminalBefore` | src/operations.rs:423-447 | the retain pass computes the specified history and count |
| `OperationHistory.HasDuplicateIds` | src/operations.rs:383-386 | finds a duplicate id iff there is one |
| `OperationHistory.ValidatedBytes` | src/operations.rs:387-403 | the first validation error in order, or the exact total |
| `OperationHistory.RetainUnexpired` | src/operations.rs:427-446 | drops exactly the first old terminal records up to the batch size, and accounts for their bytes |
| `PluginNames.DecodeEncode` | src/plugins.rs:741-771 | decoding the hexadecimal id gives the id back |
| `PluginNames.NameRoundTrip` | src/plugins.rs:741-801 | recovery reads from a transaction name exactly the id it was made for |
| `PluginNames.NameInjective` | src/plugins.rs:773-797 | names for different ids, processes, sequence numbers or instants differ |
| `PluginNames.PrefixesAreDisjoint` | src/plugins.rs:784-801 | no name is both an installation and a removal |
| `PluginNames.PlainIdsAreNotTransactions` | src/plugins.rs:704-801 | a safe id that does not start with a dot is never read as a transaction |
| `PluginNames.DottedIdReadAsRemoval` | src/plugins.rs:704-711 | the id check alone does not rule that out: a concrete safe id reads as the removal of another |
| `NameLaws.SafeIdIff` | src/plugins.rs:704-711 | the id check admits exactly the nonempty texts of ASCII letters, digits, underscore, hyphen and dot other than one or two dots |
| `NameLaws.EncodedAt` | src/plugins.rs:741-747 | the two hexadecimal digits at twice a position are the high and low half of the character there |
| `NameLaws.SplitIsJoin` | src/plugins.rs:749-771 | the fields between dots hold no dot, and joined with dots they are the text |
| `NameLaws.ParsesIff` | src/plugins.rs:749-771 | a numeric field is accepted iff it is digits, with an optional plus sign, of a value within its word |
| `NameLaws.ShowIsCanonical` | src/plugins.rs:773-797 | a number is written without leading zeros |
| `NameLaws.ReadsIff` | src/plugins.rs:749-771 | the exact language of transaction names: a name reads as an id iff it is the prefix, a hexadecimal spelling of that safe id and three numbers within their words, joined by dots |
| `PluginTransactions.OtherEntriesAreInert` | src/plugins.rs:507-570 | during a removal, recovery leaves every entry but the quarantine alone |
| `PluginTransactions.QuarantineIsResolved` | src/plugins.rs:541-567 | looking at the quarantine restores the state before or completes the removal, and a partial deletion stays inside the removal's states |
| `PluginTransactions.CompletedRecoveryEndsRemoval` | src/plugins.rs:507-570 | a recovery that reaches the quarantine, in any listing order, ends at before or gone |
| `PluginTransactions.RemovalStatesAreClosed` | src/plugins.rs:507-570 | no step of any recovery, finished or not, leaves the removal's states |
| `PluginTransactions.RemovalIsCrashAtomic` | src/plugins.rs:461-570 | however often removal and recovery are interrupted, a completed recovery leaves tree and registry entry both as before or both gone, and no transaction directory |
| `PluginTransactions.InstallIsCrashAtomic` | src/plugins.rs:384-570 | the same for an installation whose registry save is not refused: no trace, or the whole tree |
| `FileTree.ChainToPart` | src/plugins.rs:433 | every part of a tree is reached from it by losing one entry at a time |
| `PluginInstallRuns.ReachedIff` | src/plugins.rs:384-443 | the disks that an installation passes through are, phase by phase, exactly the possible ones: while it copies, the parts of the source within the copy limits |
| `PluginInstallRuns.InRunMeans` | src/plugins.rs:384-443 | what is possible occurs in a run, and lies in the states that recovery is closed under |
| `PluginInstallRuns.PartialTreeIffRefused` | src/plugins.rs:432-435 | a crash can leave an incomplete tree under the plugin's name iff the registry save was refused, the source passed the copy limits and the tree is a part of it |
| `PluginInstallRuns.PartialTreeStays` | src/plugins.rs:507-570 | no recovery of any listing touches what is left under the plugin's name |
| `PluginInstallRuns.CrashOutcome` | src/plugins.rs:384-570 | whatever moment an installation crashes at, a completed recovery restores the disk before it if the staging directory was still there, and otherwise leaves the disk as the crash did |
| `PluginSurvival.OrdinaryEntrySurvives` | src/plugins.rs:507-570 | no recovery of any listing touches an entry whose name is not a transaction name |
| `PluginSurvival.PlainPluginSurvives` | src/plugins.rs:507-570 | so a plugin whose safe id does not start with a dot keeps its tree and registration |
| `PluginSurvival.SecureSurvives` | src/plugins.rs:507-570 | an entry that depends only on entries that cannot be removed keeps its tree through every listing |
| `PluginSurvival.SurvivesEveryOrderIff` | src/plugins.rs:507-570 | within the scan limit, every order of the directory keeps an entry iff it is secure: not a transaction-named directory, or a quarantine of a registered id whose own entry is secure |
| `PluginSurvival.DottedPluginIsLost` | src/plugins.rs:507-570 | every recovery that sees a certain registered plugin with a safe dotted id deletes it and leaves its registry entry |
| `PluginHistory.PerformsFollows` | src/plugins.rs:384-570 | an installation or removal of a plain id, finished or stopped anywhere and recovered from, leaves nothing pending, and every entry and registration as before or its own |
| `PluginHistory.EveryEntryIsExplained` | src/plugins.rs:384-570 | in every history of such operations nothing is pending, and every entry is an initial one, the whole source of an installation, or a part of the source of one whose save was refused; every registration is initial or an installation's |
| `PluginDiscovery.AutoRegisterMeans` | src/plugins.rs:306-346 | discovery keeps every registration and adds, disabled and untrusted, exactly the claimed ids that are neither built in nor registered, each recording the first directory that claims it |
| `PluginDiscovery.NewRegistrationIs` | src/plugins.rs:299-346 | every plugin that discovery registers is neither enabled nor trusted, has no source, is not built in, and records the claiming candidate whose name is first by its bytes |
| `PluginDiscovery.ClaimIff` | src/plugins.rs:306-316 | a candidate claims an id iff its manifest gives that id and the id is safe |
| `PluginDiscovery.CandidateIff` | src/plugins.rs:275-298 | a candidate is a visible directory with a manifest file, hence never a transaction directory |
| `PluginDiscovery.CandidatesAre` | src/plugins.rs:275-298 | the candidates are the first 256 among the first 4096 listed names, in listing order |
| `PluginDiscovery.SameRegistryIff` | src/plugins.rs:306-346 | two visiting orders give the same registry iff every new id has the same first claimant in both |
| `PluginDiscovery.SortedVisitsAgree` | src/plugins.rs:299-346 | sorted visits of the same set of directories give the same registry |
| `PluginDiscovery.DiscoveryUsesCandidateSet` | src/plugins.rs:275-346 | so discovery depends on a listing only through the set of its candidates |
| `PluginDiscovery.DiscoveryIgnoresListingOrder` | src/plugins.rs:275-346 | within the scan and plugin limits, every order of the directory gives the same registry |
| `PluginDiscovery.DiscoveryRespectsRemoval` | src/plugins.rs:275-346 | a removed plugin is registered again iff another of the first 256 candidates claims its id and it is not built in |
| `PluginStore.PluginStore.RemoveInstalledWithSave` | src/plugins.rs:461-505 | every state passed through is a removal state; an entry that is no directory is refused with the disk as it was; success means tree and entry are gone, and says whether there was anything to remove |
| `PluginStore.PluginStore.RemoveInstalled` | src/plugins.rs:445-459 | unsafe and built-in ids are refused without touching the disk; otherwise the removal above under a name that decodes to the id |
| `PluginStore.PluginStore.Recover` | src/plugins.rs:507-570 | every state passed through is a recovery state, and success is the specified recovery of the scanned listing |
| `PluginStore.PluginStore.RecoverEntry` | src/plugins.rs:520-567 | one entry is ignored, deleted piece by piece or renamed back |
| `PluginStore.PluginStore.InstallFromFolder` | src/plugins.rs:384-443 | refuses in order, with the disk untouched, an unconfirmed installation, a source that is no directory, an unsafe id and a name that is taken; every state passed through occurs in a run of the installation, without a refused save unless one was refused; success means the whole source tree, within budget, is in place and registered as enabled and trusted with its source |
| `PluginStore.PluginStore.StageAndRegister` | src/plugins.rs:410-435 | the stage, rename, save and cleanup steps pass through nothing else |
| `PluginStore.PluginStore.CopyToStaging` | src/plugins.rs:410-418 | the staging directory holds only parts of the source within the copy limits, and all of it on success |
| `PluginStore.PluginStore.RemoveDirAll` | src/plugins.rs:433 | deleting a tree passes only through parts of it |
| `PluginCopy.CostPick` | src/plugins.rs:831-882 | the cost of a directory does not depend on which child is counted first |
| `PluginCopy.AllowedIff` | src/plugins.rs:831-882 | the special-entry, file-size and depth conditions on a tree are those on each child |
| `PluginCopy.CostOfPart` | src/plugins.rs:831-882 | a part of a tree costs no more than the tree |
| `PluginCopy.CopyablePart` | src/plugins.rs:831-882 | every part of a tree within the limits is within them |
| `PluginCopy.CopyPluginTree` | src/plugins.rs:831-882 | copying succeeds iff the whole tree is within the entry, total-byte, per-file and depth limits and has no special entry, in whatever order it is listed; success yields an equal tree and exact spending |
| `PluginCopy.CopyEntry` | src/plugins.rs:840-880 | the same for one directory entry |
| `PluginCopy.PluginInstallBudget.AdmitFile` | src/plugins.rs:810-828 | a file is admitted iff it and the new total are within their limits, and a refusal spends nothing |
| `DirectoryPruning.LeastSize` | src/directory.rs:1001-1012 | the overflow holds exactly as many keys as asked for |
| `DirectoryPruning.LeastIsDownwardClosed` | src/directory.rs:1001-1012 | whatever is evicted is strictly less, by (last_seen, hash), than whatever stays |
| `DirectoryPruning.PruneKeepsPersistent` | src/directory.rs:974-1035 | every persistent entry stays and no survivor changes |
| `DirectoryPruning.PruneEvictsLeast` | src/directory.rs:974-1023 | the removed entries are the stale ones and exactly the overflow least by (last_seen, hash) |
| `DirectoryPruning.PruneBoundsTransients` | src/directory.rs:974-1023 | afterwards no transient entry is stale and at most 1024 are left |
| `DirectoryPruning.PruneKeepsStreamInside` | src/directory.rs:974-1023 | stream hashes stay inside the entry keys, and the stream only shrinks, to at most 256 |
| `DirectoryPruning.PruneIsIdempotent` | src/directory.rs:974-1023 | pruning again at the same time changes nothing and says so |
| `DirectoryLaws.TransientIff` | src/directory.rs:1026-1035 | an entry is transient iff every setting that a user can make, other than a trust level short of trusted, has the value a new entry has |
| `DirectoryLaws.RemovedIff` | src/directory.rs:974-1023 | pruning removes an entry iff it is transient and was last seen more than six hours ago or has at least 1024 fresh transient entries seen later, ties by hash |
| `DirectoryLaws.PrunedStreamIs` | src/directory.rs:974-1023 | the stream after pruning is the first 256 of its recent or persistent items, in order, without those whose entry was removed |
| `DirectoryLaws.RestartIsPruned` | src/directory.rs:848-875 | a restart keeps every persistent entry of the file as it is, adds none, and holds no stale transient entry |
| `DirectoryRuns.StepKeepsSynced` | src/directory.rs:877-954 | each operation, with its save succeeding or failing, keeps disk and memory in agreement when no save is pending |
| `DirectoryRuns.RunKeepsSynced` | src/directory.rs:409-954 | so does every run |
| `DirectoryRuns.LoadedIsSynced` | src/directory.rs:848-875 | start-up ends in agreement, whichever announce stream it uses |
| `DirectoryRuns.EveryRunIsSynced` | src/directory.rs:409-954 | from start-up on, when no save is pending disk and memory agree on every shared entry except last_seen, disk has no extra destination and lacks only transient entries |
| `DirectoryLastSeen.StaysQuietIff` | src/directory.rs:480-492 | with no save pending, an announce leaves none pending iff it is refused, or repeats a known entry inside the cooldown with nothing to prune |
| `DirectoryLastSeen.QuietMovesLastSeen` | src/directory.rs:480-492 | such a quiet announce moves one last_seen and nothing else in the map |
| `DirectoryLastSeen.StepDisk` | src/directory.rs:901-926 | the file changes only in a successful save, which copies memory exactly; every other command but an announce leaves the state as it was |
| `DirectoryLastSeen.DiskIsLastSave` | src/directory.rs:877-946 | at every point of every run the file is the copy of memory that its last successful save made |
| `DirectoryLastSeen.LoadedIsExact` | src/directory.rs:848-875 | start-up leaves a file that agrees with memory, last_seen included |
| `DirectoryLastSeen.LastSeenInMemory` | src/directory.rs:480-492 | in every run, with no save pending, last_seen in memory is the time of the last quiet announce since the last save, or what the file holds if there was none |
| `DirectoryLastSeen.LastSeenAgreesIff` | src/directory.rs:480-492 | with an advancing clock, memory and file agree on last_seen iff no quiet announce of the entry came since the last save |
| `DirectoryLastSeen.LastSeenLagsWithoutBound` | src/directory.rs:480-492 | while nothing else happens, quiet announces can go on for any number of times, each leaving the file further behind |
| `DirectoryRuns.IngestOnlySchedules` | src/directory.rs:480-492 | an announce never cancels or postpones a pending save, and a new one is due 30 seconds later |
| `DirectoryRuns.StepNeverPostpones` | src/directory.rs:948-954 | no operation moves a pending deadline later |
| `DirectoryRuns.RunNeverPostpones` | src/directory.rs:948-954 | nor does any run while the save stays pending |
| `DirectoryRuns.StepPinsIdentity` | src/directory.rs:431-455 | no operation forgets or changes a known identity hash, up to ASCII case |
| `DirectoryRuns.RunPinsIdentity` | src/directory.rs:431-689 | nor does any run while the entry stays in the map |
| `DirectoryRuns.ConflictingAnnounceIsInert` | src/directory.rs:431-446 | a conflicting announce leaves the whole state unchanged |
| `DirectoryLaws.ConflictIff` | src/directory.rs:431-446 | an identity conflicts with a known one iff they differ in length or somewhere by more than the case of an ASCII letter |
| `DirectoryLaws.AnnouncedFields` | src/directory.rs:447-479 | field by field, what the entry made by an announce takes from the announce and what from the known entry |
| `DirectoryLaws.AnnouncedName` | src/directory.rs:447-453 | an announced name that is no placeholder becomes the name, and a placeholder never displaces a name that is none |
| `DirectoryLaws.PreferredNameIs` | src/directory.rs:1257-1275 | the same with the remaining cases: among placeholders a nonempty new one, the known one, or the first eight characters of the hash |
| `DirectoryLaws.PlaceholderIff` | src/directory.rs:1277-1287 | a name is a placeholder iff, between any blanks, it is empty, the hash or its first eight characters up to case, or in angle brackets |
| `DirectoryLaws.WorthSavingIff` | src/directory.rs:480-483 | an announce needs no save iff it changes nothing but last_seen, less than 300 seconds after it |
| `DirectoryLaws.AnnounceStringsIff` | src/directory.rs:1317-1352 | the byte bounds of an announce, and an identity of 32 hexadecimal digits |
| `DirectoryLaws.StoreIff` | src/directory.rs:1289-1352 | a file is valid iff it has at most 4096 entries and every entry and stream item is within these bounds |
| `DirectoryLaws.FoundFirst` | src/directory.rs:697-704 | a destination outside the map is found as the first stream item with its hash, or not at all if there is none |
| `DirectorySettings.ReannounceKeepsSettings` | src/directory.rs:454-479 | a re-announce keeps every setting but the reply ticket, and the entry stays persistent iff it was so for more than its ticket or is a trusted node |
| `DirectorySettings.SettingAnchorsIff` | src/directory.rs:521-689 | exactly which settings make their entry persistent for more than its ticket |
| `DirectoryLaws.SetterSets` | src/directory.rs:521-689 | each of the nine setters puts its argument into the field it is named for, and says what becomes of the saved flag |
| `DirectoryLaws.SetterKeeps` | src/directory.rs:521-689 | no setter but removal touches a field of another setter, and none touches what comes from announces |
| `DirectoryLaws.SettersCommute` | src/directory.rs:521-689 | any two different setters other than removal give the same entry in either order |
| `DirectorySettings.AcceptedSetting` | src/directory.rs:928-946 | a setter whose save succeeds puts the entry into memory and, if persistent, on disk; one whose save fails changes nothing |
| `DirectorySettings.RunKeepsSettings` | src/directory.rs:409-954 | settings that memory and file hold for a persistent entry survive every run without another setter on it |
| `DirectorySettings.AcceptedSettingLasts` | src/directory.rs:521-946 | so an accepted setting that makes its entry persistent is in memory and on disk after any later run without another setter |
| `DirectorySettings.ReplyTicketLastsIff` | src/directory.rs:454-469 | over such a run, the reply ticket in memory and on disk is kept iff no announce of the entry was accepted, and gone from both otherwise |
| `DirectorySettings.ReannounceDropsReplyTicket` | src/directory.rs:454-469 | an accepted ticket is on disk, and gone from it after one accepted announce and a successful flush |
| `DirectoryRuns.RunKeepsWellStored` | src/directory.rs:409-954 | in every run entries are stored under their own hash, within the string bounds, and the stream stays inside the keys |
| `DirectoryRuns.RestartIsWellStored` | src/directory.rs:848-875 | and so does a restart from the file that such a directory saved, whether the stream is read or rebuilt |
| `DirectoryService.DirectoryService.IngestAnnounce` | src/directory.rs:409-494 | the object takes the specified announce step and returns the stored entry or the specified error |
| `DirectoryService.DirectoryService.PruneTransientEntries` | src/directory.rs:974-1023 | the collect, sort and cut loops compute the specified pruning and its changed flag |
| `DirectoryService.DirectoryService.SaveNow` | src/directory.rs:901-926 | one save writes the pruned snapshot and clears the pending flag, or changes nothing |
| `DirectoryService.DirectoryService.UpdateEntry` | src/directory.rs:521-689 | any setter (what each sets is `DirectoryLaws.SetterSets`), through persist with rollback: a failed save leaves the state unchanged |
| `DirectoryService.DirectoryService.ClearAnnounces` | src/directory.rs:359-367 | clears the stream, or leaves the state unchanged if the save fails |
| `DirectoryService.DirectoryService.ScheduleSave` | src/directory.rs:948-954 | an earlier deadline is kept |
| `DirectoryService.DirectoryService.FlushPending` | src/directory.rs:893-899 | answers false iff nothing was pending, true iff the save succeeded, bringing disk and memory into agreement, and an error otherwise |
| `DirectoryService.DirectoryService.FlushDue` | src/directory.rs:877-883 | answers false iff nothing was pending or it was not due yet, true iff the save succeeded, and an error otherwise |
| `DirectoryService.RemovableHashes` | src/directory.rs:985-1012 | collecting, sorting and cutting finds the stale entries and the overflow of lowest rank |
| `DirectoryService.LeastOfSorted` | src/directory.rs:1001-1012 | the front of the sorted keys is the set of keys of lowest rank |
| `PropagationInventory.BoundedIsSubsequence` | src/directory.rs:295-315 | the bounded inventory is a subsequence |
| `PropagationInventory.BoundedGrows` | src/directory.rs:295-315 | later nodes are only appended |
| `PropagationInventory.BoundedIsMaximal` | src/directory.rs:295-315 | each node was kept in its turn or could not be added even to the final result |
| `PropagationInventory.BoundedIsIdempotent` | src/directory.rs:295-315 | bounding twice is bounding once |
| `PropagationInventory.PropagationNodeInventory.EnforceBounds` | src/directory.rs:295-315 | the loop computes that subsequence, its exact byte total, and whether anything was dropped |
| `PropagationInventory.NodeOrderIsTotalPreorder` | src/directory.rs:1223-1246 | the record order is a total preorder |
| `InventoryLaws.NodeOrderIff` | src/directory.rs:1223-1246 | one record may stand before another iff they agree on a prefix of selected, saved, trusted, freshness, seen later, smaller hash and it is ahead in the next |
| `InventoryLaws.InventoryIsInOrder` | src/directory.rs:721-745 | any two records of the sorted inventory stand in that order |
| `InventoryLaws.RecordHolds` | src/directory.rs:1143-1222 | what a record shows: the hash in place of an unauthenticated name, selected up to case, and fresh iff seen at all and at most six hours ago or in the future |
| `InventoryLaws.RecordsIff` | src/directory.rs:721-745 | there is a record iff it is that of a listed propagation node |
| `InventoryLaws.RecordBytesAre` | src/directory.rs:1248-1255 | a record with neither identity nor sync error is charged 224 bytes, its hash and its name; each of the two adds its length |
| `PropagationInventory.SelectedNodeComesFirst` | src/directory.rs:721-745 | the inventory starts with a selected node whenever a listed node matches |
| `PropagationInventory.BuildInventory` | src/directory.rs:721-745 | the inventory is the bounded sort of the records, with exact counts and truncation flag |
| `HistorySearch.BeforeIsTotalPreorder` | src/history_search.rs:497-512 | the page order (newest, context, excerpt) is a total preorder |
| `SearchLaws.InOrderIff` | src/history_search.rs:450-458 | the page order is: time does not increase, context does not decrease within a time, excerpt does not decrease within a context |
| `HistorySearch.RetainedStep` | src/history_search.rs:497-512 | pushing and cutting when over 128 keeps the page that all matches so far would give |
| `HistorySearch.RetainedSorts` | src/history_search.rs:450-458 | the final sort gives the first 128 of one stable sort of all matches |
| `HistorySearch.BoundedSearch.AdmitScan` | src/history_search.rs:258-265 | admits up to the scan limit and raises the flag only when an item is turned away |
| `HistorySearch.BoundedSearch.Push` | src/history_search.rs:497-512 | keeps the page and the result flag exact |
| `HistorySearch.BoundedSearch.ScanInput` | src/history_search.rs:134-192 | one conversation or session, newest first |
| `HistorySearch.BoundedSearch.ScanInputs` | src/history_search.rs:134-192 | all inputs that the source filter allows |
| `HistorySearch.SearchLocalHistory` | src/history_search.rs:134-192 | an invalid query is refused; otherwise the page is the first 128 of one stable sort of all matches among the first 8192 eligible items, with both limit flags exact |
| `SearchLaws.PageIsInOrder` | src/history_search.rs:134-192 | any two results of a page stand newest first, then by context, then by excerpt |
| `SearchLaws.LeftOutIsOlder` | src/history_search.rs:497-512 | no match left out is newer than, or ahead in that order of, one that is shown |
| `SearchLaws.UnfullPageHoldsAll` | src/history_search.rs:134-192 | the result flag is raised iff there are more than 128 matches and the scan flag iff more than 8192 eligible items; without the former the page holds every match as often as it matched |
| `SearchLaws.EligibleIff` | src/history_search.rs:134-192 | an item is eligible iff it stands in an input whose source the filter allows |
| `SearchLaws.ReverseAt` | src/history_search.rs:151-174 | items are scanned from the last to the first |
| `SearchLaws.OnPageIff` | src/history_search.rs:134-192 | a result is on a page that is not full iff it is that of a scanned item that matches |
| `SearchLaws.ContainsIff` | src/history_search.rs:535-545 | a value contains a needle iff it is some front, a word equal to the needle up to the case of ASCII letters, and some rest |
| `SearchLaws.SenderFilter` | src/history_search.rs:480-482 | a query with only a sender matches iff the item has a sender that contains it |
| `SearchLaws.RoomFilter` | src/history_search.rs:483-485 | a query with only a room matches iff the item has a room that contains it |
| `SearchLaws.TimeFilter` | src/history_search.rs:469-473 | a bound on time matches iff the item is not before, or not after it |
| `SearchLaws.DeliveryFilter` | src/history_search.rs:474-479 | a delivery state matches iff it is that of the item, and attachments only iff there is one |
| `SearchLaws.TermFilter` | src/history_search.rs:489-494 | a word matches iff a searchable text or an attachment name contains it |
| `SearchLaws.MatchesIsConjunction` | src/history_search.rs:460-495 | a query matches iff each of its parts alone would |
| `SearchLaws.FoundIff` | src/history_search.rs:134-192 | so a page that is not full shows exactly the scanned items that satisfy every part of the query, said of the items themselves |
| `SearchLaws.ControlIff` | src/history_search.rs:41-65 | the bytes of a text hold a control character iff one of its characters is one, C1 controls included |
| `SearchLaws.QueryAcceptedIff` | src/history_search.rs:41-65 | a query is accepted iff its text, sender and room have at most 256 bytes and no control character, there are at most 8 words and the times are in order |
| `SearchText.BoundedSearchText` | src/history_search.rs:547-559 | never over the limit and always UTF-8: the text itself if it fits, else the longest prefix of whole characters that leaves room for the ellipsis, else nothing |
| `StableSort.SortStable` | src/history_search.rs:497-512 | sorting keeps the order of elements that tie |
| `StableSort.StableSortIsUnique` | src/history_search.rs:497-512 | a stable sort is determined by sortedness and the order of ties, so the result does not depend on the sorting algorithm |
| `StableSort.SortTakeStep` | src/history_search.rs:497-512 | adding to a truncated sorted page and truncating again is truncating the sort of everything |
| `TopK.TopKUnique` | src/structured_log_reader.rs:150-212 | under a total order the k greatest are determined |
| `TopK.StreamedEqualsSorted` | src/structured_log_reader.rs:150-212 | a streamed selection, sorted, is the tail of one sort |
| `LogReader.RetainAt` | src/structured_log_reader.rs:150-212 | pushing, replacing the least or turning away keeps the k greatest |
| `LogReader.RecentLogs.RetainCandidate` | src/structured_log_reader.rs:150-170 | the candidates are the active file and the greatest others by (modified, path) |
| `LogReader.RecentLogs.RetainRecentEntry` | src/structured_log_reader.rs:197-212 | the retained list is exactly that of one pass (first oldest replaced, also by an equal), with the k greatest epochs |
| `LogReader.RecentLogs.ScanDirectory` | src/structured_log_reader.rs:61-90 | the scan stops at its limit, counts the matching files and keeps the selection |
| `LogReader.RecentLogs.ReadFiles` | src/structured_log_reader.rs:101-129 | the file loop stays within the byte budget, keeps the greatest epochs of all it read and counts bytes, files, truncations and failures exactly |
| `LogReader.StreamedSelection` | src/structured_log_reader.rs:92-98 | the streamed candidates in reading order are the active log and the newest others of one sort |
| `LogLaws.ActiveLogIs` | src/structured_log_reader.rs:54-59 | the active log has its one name, which is not that of a rotated log |
| `LogLaws.RotatedIs` | src/structured_log_reader.rs:73-82 | a rotated log is a regular file with the program prefix and the log suffix, and every such name is one |
| `LogLaws.NewerIff` | src/structured_log_reader.rs:92-98 | of two rotated logs the later modified comes first, and the greater path among equals |
| `LogLaws.SelectionIs` | src/structured_log_reader.rs:92-98 | the selection is the active log and as many of the others as the limit leaves room for |
| `LogLaws.SelectedInOrder` | src/structured_log_reader.rs:92-98 | the others are read newest first |
| `LogLaws.LeftOutIsOlder` | src/structured_log_reader.rs:150-170 | no log left out is newer than one that is read |
| `LogLaws.TailIs` | src/structured_log_reader.rs:177-195 | what is read of a file is its suffix of the limit, or all of it |
| `LogLaws.AfterFirstLineIs` | src/structured_log_reader.rs:113-120 | a truncated read drops everything up to its first line break, and all of a line that is not ended |
| `LogLaws.SplitLinesIs` | src/structured_log_reader.rs:121 | the lines hold no line break, and joined with line breaks they are the bytes |
| `LogLaws.ParsedLine` | src/structured_log_reader.rs:121-125 | each line contributes its entry, and a line that is none contributes nothing |
| `LogLaws.MostRecentMeans` | src/structured_log_reader.rs:45-136 | the returned entries are as many as the limit allows, in ascending time, and no entry left out is later than one returned |
| `LogReader.LoadRecentLogEntries` | src/structured_log_reader.rs:45-136 | the returned list is exactly what one pass keeps of everything the byte budget showed, sorted; its epochs are the k largest ascending, the bytes read never exceed the budget and all counters are exact |
| `Text.LinesOfJoined` | src/interfaces.rs:709-731 | reading the lines of joined lines gives them back |
| `InterfaceProfiles.ValidateProfiles` | src/interfaces.rs:768-852 | accepts iff there are at most 64 profiles, each within its bounds and free of line breaks and NUL, with unique ids |
| `InterfaceLaws.ValidProfileIff` | src/interfaces.rs:786-811 | a profile is valid iff it has at most 64 peers, a passphrase within 4096 bytes, every other text within 16 KiB, and no NUL, line feed or carriage return in any |
| `InterfaceLaws.NewProfileHolds` | src/interfaces.rs:94-154 | what a new profile of each kind holds |
| `InterfaceProfiles.Pigeonhole` | src/interfaces.rs:651-673 | no more numbered names are taken than there are used names |
| `InterfaceProfiles.FirstFree` | src/interfaces.rs:651-673 | the suffix found is the least free one, at most as far above the first as there are used names |
| `InterfaceProfiles.SearchSuffix` | src/interfaces.rs:666-672 | the unbounded loop stops at the first free name, after at most one try more than there are used names |
| `InterfaceProfiles.FindSectionName` | src/interfaces.rs:651-673 | returns the specified unused section name |
| `InterfaceProfiles.SectionNamesDistinct` | src/interfaces.rs:549-566 | rendered section names are pairwise distinct for any profile list |
| `InterfaceProfiles.DistinctNamesAreKept` | src/interfaces.rs:651-659 | profiles whose own names differ are rendered under their own names |
| `InterfaceLaws.BaseIs` | src/interfaces.rs:651-659 | the preferred section name is the profile name between its white space, or the id if there is nothing between |
| `InterfaceProfiles.UniqueProfileId` | src/interfaces.rs:997-1012 | the id is used by no profile |
| `InterfaceProfiles.FindProfileId` | src/interfaces.rs:997-1012 | the search returns that id |
| `InterfaceConfig.SafeName` | src/interfaces.rs:733-744 | the result is a nonempty name of ASCII letters, digits, `_` and `-` |
| `InterfaceConfig.SafeNameIsFixed` | src/interfaces.rs:733-744 | a safe name is its own sanitized form |
| `InterfaceLaws.SafeNameIs` | src/interfaces.rs:733-744 | the sanitized name is the allowed characters in order, or the default name if there is none |
| `InterfaceConfig.ReadReticulumValue` | src/interfaces.rs:709-731 | the loop returns the first nonempty value of the key inside a `[reticulum]` section |
| `InterfaceLaws.SpaceIff` | src/interfaces.rs:709-731 | the 25 characters that trimming removes, by code point |
| `InterfaceLaws.Decomposes` | src/interfaces.rs:709-731 | every text is white space, its trimmed form and white space, and the trimmed form has none at its ends |
| `InterfaceLaws.TrimsTo` | src/interfaces.rs:709-731 | and it has no other such decomposition |
| `InterfaceLaws.LineBreaks` | src/interfaces.rs:709-731 | a line ends at a line feed, a carriage return before it is not part of it, and the last line may be unended |
| `InterfaceLaws.SectionIff` | src/interfaces.rs:709-731 | a line is a section line iff between white space it is something in brackets |
| `InterfaceLaws.ReticulumIff` | src/interfaces.rs:709-731 | it opens the section iff between white space it is the bracketed name |
| `InterfaceLaws.AssignedIff` | src/interfaces.rs:709-731 | a line assigns a value to a key iff it is the key, an equals sign and the value with only white space around them |
| `InterfaceLaws.IdentityEntryIff` | src/interfaces.rs:675-707 | a line is an identity entry iff after white space it starts with the key |
| `InterfaceConfig.RenderConfigWithInstanceName` | src/interfaces.rs:549-566 | the loop writes the header with the sanitized name, then each profile under its unused section name |
| `InterfaceSections.SettingReads` | src/interfaces.rs:568-649 | a rendered setting line reads back as its trimmed value under its key and under no other, and opens no section |
| `InterfaceSections.BodyReads` | src/interfaces.rs:568-649 | in the profile lines, the section of each profile holds exactly the settings rendered for it |
| `InterfaceSections.RenderedSections` | src/interfaces.rs:549-566 | the same in the whole rendering |
| `InterfaceSections.WithIdentitySections` | src/interfaces.rs:675-707 | and after an identity is put back |
| `InterfaceSections.AppliedSections` | src/interfaces.rs:389-403 | and in whatever apply writes over any existing text |
| `InterfaceSections.CommonSays` | src/interfaces.rs:568-649 | type and both enabled flags of every profile |
| `InterfaceSections.ClientSays` | src/interfaces.rs:577-597 | target host or its default, port, and network name and passphrase iff nonempty |
| `InterfaceSections.ServerSays` | src/interfaces.rs:598-617 | listening address or its default, port, and network name and passphrase iff nonempty |
| `InterfaceSections.PeersAre` | src/interfaces.rs:626 | the joined peers are each peer in order with a comma and a blank between |
| `InterfaceSections.TunnelSays` | src/interfaces.rs:618-627 | the connectable flag and the peers joined by commas |
| `InterfaceSections.RadioSays` | src/interfaces.rs:628-641 | device port, frequency, bandwidth, power, spreading factor and coding rate |
| `InterfaceSections.ProfilesReadBack` | src/interfaces.rs:389-403 | the round trip: in what apply writes for valid profiles over any existing text, the section with the name of the i-th profile gives back each of its fields |
| `InterfaceConfig.RewriteLine` | src/interfaces.rs:681-700 | one turn of the rewriting loop emits the line, the identity line, both or neither, by the two flags |
| `InterfaceConfig.RenderConfigWithNetworkIdentity` | src/interfaces.rs:675-707 | the loop computes the rewriting of all lines |
| `InterfaceConfig.TryRenderConfigForApply` | src/interfaces.rs:389-403 | reads name and identity from the existing text and renders with them |
| `InterfaceHeader.HeadReads` | src/interfaces.rs:23-34 | the managed header reads back as its instance name and holds no identity |
| `InterfaceHeader.SplicedHeader` | src/interfaces.rs:675-707 | the identity line lands at the end of the managed `[reticulum]` section |
| `InterfaceFixedPoint.ValidLacksBreaks` | src/interfaces.rs:768-852 | every list that passes validation is free of line breaks |
| `InterfaceFixedPoint.BodyDoesNotOpen` | src/interfaces.rs:568-649 | no line, as rendered for any profile, opens the `[reticulum]` section |
| `InterfaceFixedPoint.BodyLacks` | src/interfaces.rs:568-649 | profiles without a line break character render to lines without it |
| `InterfaceFixedPoint.TailReadsBack` | src/interfaces.rs:549-566 | without line breaks in the profiles, the profile lines read are exactly those rendered |
| `InterfaceFixedPoint.RenderedReadsBack` | src/interfaces.rs:549-566 | a rendering reads back as its sanitized instance name, whatever the profiles contain |
| `InterfaceFixedPoint.RenderedHasNoIdentity` | src/interfaces.rs:549-566 | no profile without line feeds can put a network identity into a rendering |
| `InterfaceFixedPoint.WithIdentityReadsBack` | src/interfaces.rs:675-707 | with an identity put back, both name and identity read back, whatever the profiles contain |
| `InterfaceFixedPoint.IdentityInsertsOneLine` | src/interfaces.rs:675-707 | putting the identity back inserts one line and leaves the profile sections untouched |
| `InterfaceFixedPoint.ApplyReadsBack` | src/interfaces.rs:389-403 | what apply writes reads back as the sanitized name and the identity found before |
| `InterfaceFixedPoint.ApplyIsFixedPoint` | src/interfaces.rs:389-403 | applying to its own output writes the same text, for any existing text, any profiles without line feeds and any fresh name |
| `InterfaceFixedPoint.ApplyIsFixedPointIff` | src/interfaces.rs:389-403 | for profiles of any content, the fixed point holds iff the existing text had an identity or the rendering holds none |
| `InterfaceService.CreatedIsValid` | src/interfaces.rs:246-283 | a profile with an unused id is refused only for its own content or the item limit |
| `InterfaceService.WithoutRemovesOne` | src/interfaces.rs:347-360 | deleting removes exactly the one profile with that id |
| `InterfaceLaws.ReadableIff` | src/interfaces.rs:854-861 | an existing configuration is read as a text iff it has at most 1 MiB and is the encoding of that text |
| `InterfaceLaws.DefaultNameIs` | src/interfaces.rs:246-283 | the name given to a new profile of each kind |
| `InterfaceService.Open` | src/interfaces.rs:210-234 | opening succeeds iff the gateway presets are in order, the lists are valid, the file is readable, the rendering fits and the writes succeed; the service is then valid, its file applied, and an empty list has become one enabled automatic interface under the given id |
| `InterfaceService.InterfaceConfigService.Persist` | src/interfaces.rs:472-490 | writes iff the list is valid and the write succeeds; otherwise the file is unchanged |
| `InterfaceService.InterfaceConfigService.Create` | src/interfaces.rs:246-283 | puts a new profile with an unused id in front, or restores the list; memory equals the file either way |
| `InterfaceService.InterfaceConfigService.Update` | src/interfaces.rs:285-301 | replaces the profile with that id iff it is valid and written, and says which case held |
| `InterfaceService.InterfaceConfigService.ToggleEnabled` | src/interfaces.rs:303-322 | flips the flag of that profile only, or restores the list |
| `InterfaceService.InterfaceConfigService.ToggleConnectable` | src/interfaces.rs:324-345 | flips the flag of an I2P profile only, or restores the list |
| `InterfaceService.InterfaceConfigService.Delete` | src/interfaces.rs:347-360 | removes that profile only, or restores the list |
| `InterfaceService.InterfaceConfigService.CreateGatewayProfile` | src/interfaces.rs:418-458 | enables the first profile that serves the gateway, creates one, or reports it already enabled; failures restore the list |
| `InterfaceService.InterfaceConfigService.Apply` | src/interfaces.rs:362-372 | writes the rendering iff the file is readable, the result fits and the write succeeds; a file that apply wrote for these profiles is left byte for byte as it is |
| `Utf8.DecodeEncode` | src/interfaces.rs:854-861 | decoding an encoded text gives it back (RFC 3629) |
| `Utf8.EncodeDecode` | src/interfaces.rs:854-861 | only the one encoding of a text is accepted: no overlong forms, surrogates or values past U+10FFFF |
| `Utf8.BoundaryIff` | src/history_search.rs:554-557 | the character boundaries of a text are exactly the ends of its prefixes of whole characters |
| `InputBuffer.InputBuffer.constructor` | src/input.rs:26-30 | the whole text before the cursor |
| `InputBuffer.InputBuffer.SetText` | src/input.rs:40-43 | the whole new text before the cursor |
| `InputBuffer.InputBuffer.SetCursorCharIndex` | src/input.rs:45-52 | the cursor stands before that character, or at the end |
| `InputBuffer.InputBuffer.InsertChar` | src/input.rs:54-57 | the character is put before the cursor, as in the character view |
| `InputBuffer.InputBuffer.InsertStr` | src/input.rs:59-62 | the string is put before the cursor |
| `InputBuffer.InputBuffer.Backspace` | src/input.rs:64-70 | the character before the cursor goes, whatever its width |
| `InputBuffer.InputBuffer.Delete` | src/input.rs:72-77 | the character after the cursor goes |
| `InputBuffer.InputBuffer.MoveLeft` | src/input.rs:79-83 | one whole character left |
| `InputBuffer.InputBuffer.MoveRight` | src/input.rs:85-89 | one whole character right |
| `InputBuffer.InputBuffer.MoveHome` | src/input.rs:91-93 | to the start |
| `InputBuffer.InputBuffer.MoveEnd` | src/input.rs:95-97 | to the end |
| `InputBuffer.InputBuffer.DisplayWithCursor` | src/input.rs:99-103 | the rendering decodes to the text with a bar at the cursor |
| `InputBuffer.InputBuffer.PreviousBoundary` | src/input.rs:105-110 | the start of the character before the cursor, if there is one |
| `InputBuffer.InputBuffer.NextBoundary` | src/input.rs:112-118 | the end of the character after the cursor, if there is one |
| `InputBuffer.InputBuffer.Replay` | src/input.rs:25-119 | every edit sequence on the bytes is the same sequence on the characters: the text stays UTF-8 and the cursor on a boundary |
| `InputBuffer.InputBuffer.TypeAndTakeBack` | src/input.rs:59-70 | inserting a string and backspacing once per character leaves every byte and the cursor as they were |
| `InputBuffer.BackspacesUndo` | src/input.rs:64-70 | in the character view, backspaces undo an insertion of as many characters |
| `InputBuffer.InsertThenBackspaces` | src/input.rs:59-70 | so inserting and then backspacing is the identity |
| `InputBuffer.InsertStrIsTyping` | src/input.rs:54-62 | inserting a string is inserting its characters one by one |
| `InputBuffer.MovesKeepText` | src/input.rs:79-97 | no run of cursor moves changes the text |
| `InputBuffer.RepresentsUnique` | src/input.rs:20-23 | bytes and cursor determine the character view |

## Left out

- File mechanics (temporary files, fsync, modes, symlink and inode checks, backups of corrupt files): a write, publish, rename or registry save succeeds or changes nothing. In particular a parent-directory sync that fails after the replacement took effect is not modelled.
- JSON, SHA-256, SQLite stores and the Reticulum and LXMF transports. A file is the value it holds; the byte limits on JSON files are part of whether a write succeeds.
- Clocks, process ids, hash seeds and directory listings are parameters. Times are reals and integers; NaN and infinite `f64` values are not modelled.
- Other processes that change the same files at the same time.
- Operations.Upsert: byte sums are unbounded naturals, so the saturating adds never saturate; the source agrees while `max_bytes` is at least one record below the word size.
- PluginStore.PluginStore.InstallFromFolder: the second check that the target is absent cannot fail here, because nothing else touches the disk, and reading the manifest is a parameter; the staging name is taken to be unused.
- PluginDiscovery.AutoRegisterMeans: the registration time that an entry also records is left out.
- PluginInstallRuns.ReachedIff: copying and deleting a tree take its entries in any order, one whole entry at a time; the depth-first order of the copy, half-written files in the staging directory and the order in which the library deletes are not modelled.
- PluginStore.PluginStore.RemoveInstalledWithSave: the quarantine name is taken to be unused.
- PluginTransactions.RemovalIsCrashAtomic: for ids that do not read as transaction names and directories within the scan limit; several removals of one id without a recovery in between are not modelled, since listing order then decides which tree is restored.
- Names in the plugins directory that are not Unicode, and the registry file's own name among the entries.
- `sync_enabled_metadata`, plugin permissions and manifest parsing.
- DirectoryService.DirectoryService.constructor: starts from an empty file; start-up from a file is the function `Directory.Load`, for any announce stream, so the order of a rebuilt stream is not stated.
- Directory display names are trimmed and compared with ASCII letters and blanks only.
- `list_entries`, `merged_entry`, `filtered_entries` and the other read-only listings of the directory; the inventory takes the listed entries as given, and its records carry the fields that decide order and size.
- `search_persisted_local_history` and the projections of messages and chat events into searchable items; splitting the query into words.
- InterfaceConfig.RenderConfigWithInstanceName: the header is built with the name in place rather than by string replacement in the default header.
- `ensure_gateway_presets`, the validation of gateway presets, and `render_config_for_apply`'s fallback.
- Command-line parsing, the user interface, diagnostics, media, workspaces and live smoke runs are out of scope.
