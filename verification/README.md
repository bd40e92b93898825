# Verified model of the Repod backend

Repod stores, validates and publishes Debian, RPM and Alpine packages. This project models the parts of its backend that carry
loops, state machines and protocols, and proves what they keep. One module stands for one component:

- `PackageIndex`, `TransitiveMissing`: the package index and the search for missing dependencies over it;
- `DependencyGraph`, `ApkResolver`, `RpmResolver`, `AptImport`: the level-by-level dependency searches of the three importers;
- `AutoImport`: the bounded worklist that imports missing dependencies after an upload, in its batch and streaming forms;
- `ImportLock`, `MirrorLog`, `MirrorManager`: the import locks, the log stream and the job table of mirrors, as interleaved steps;
- `Lockout`, `TokenRevocation` (with `IsoTime`): account lockout and token revocation over whole runs;
- `CveRotation`: the rotation of the daily CVE re-match;
- `IndexState`: the clear, rewrite and remember protocol of the synchronised sources, with interruptions;
- `Publication` (with `FileNames`): the life of a package file across upload, import, decision, quarantine and re-match, and its
  place in the physical repository;
- `LicenseKey`, `DistributionsConf`, `AuditLog`: licence keys, the reprepro configuration and the audit log.

`Sequences`, `Text` and `TextOrder` hold list facts, Python's string operations and Python's order on strings.

Objects that are updated in place are classes, their methods specified by functions on values; the theorems are about runs of
those functions. Protocols between threads are state machines whose steps are the atomic actions of the code. The network, the
clock, randomness, subprocesses, the database's failures and cryptography appear as parameters: outcomes, times, budgets of
steps, and functions with the properties a statement needs, which it then requires.

`dafny verify dfyconfig.toml` checks the whole project.

## Where the code does less than it says

- The depth cap makes the missing-dependency search incomplete even for near names (`TransitiveMissing.SharedVisitedHidesNearName`).
- A dependency imported after an upload has no version in its row, so the import lock does not prevent its being published twice
  (`ImportLock.RepublishIff`; the call is at backend/routers/upload.py:212), nor does it for versions with an epoch
  (`ImportLock.EpochIsRepublished`).
- A failed clearing of a fingerprint is only logged, after which a skipped source can hold another catalogue
  (`IndexState.CrashSafeIff`); overlapping cycles of one source that write different rows have the same effect
  (`IndexState.OverlapIff`, `IndexState.StreamOverlapBreaks`; nothing keeps sync_manager.py, mirror_manager.py and
  security_sync.py from running them at once), and the count guard does not see a partial restoration (`IndexState.GuardOverRuns`).
- Manifests that are skipped or fail keep their place at the front of the re-match queue (`CveRotation.Starvation`).
- Logging out with a token that has no identifier succeeds and has no effect (`TokenRevocation.LogoutEffectiveIff`).
- A package flagged by a re-match, or for which an upgrade is required, stays served (`Publication.FlaggedIsStillServed`), and an
  import can change the bytes a decision publishes (`Publication.AcceptedBytesCanDiffer`).
- A licence key with a character outside ASCII raises an exception that is not the one for invalid keys (`LicenseKey.RaisesIff`).
- The Alpine pool test is by name prefix: a package counts as present, and is never imported, while another whose name goes on
  after its own is there (`FileNames.FoundRightByNamesIff`, `Publication.SkippedForGood`). Withdrawing an RPM or Alpine package
  takes such packages with it (`Publication.WithdrawsOthersIff`).
- RPM and Alpine files are withdrawn in some modes only, and with all formats together never (`Publication.WithdrawableIff`); and
  where Debian packages are served, an accepted RPM package is not, nor an Alpine package anywhere (`Publication.ServedByCheck`).
- An RPM import is never skipped for a package already there: the test at backend/services/importer_rpm.py:230-235 reads a file
  name and a format that the package's entry in the index, made at backend/services/indexer.py:74-106, does not have.
- An audit write cut short also loses the next entry of that day, and one cut inside a character, entries being written in UTF-8 as
  they are (backend/services/audit.py:54), makes the whole day unreadable (`AuditLog.ReadableIsKept`).

## Model

| member | source | states |
|---|---|---|
| PackageIndex.Index.AddToIndex | backend/services/indexer.py:74-106 | adding a manifest stores its version entry, member by member, with the names of the dependencies recorded as unavailable, sets description and section, and makes `latest` the greatest version key; nothing else changes |
| PackageIndex.Index.RemoveFromIndex | backend/services/indexer.py:109-126 | a package stays exactly when a version other than the one removed is left, with `latest` the greatest of those left and its texts; nothing else changes |
| PackageIndex.Index.SyncIndexFromPool | backend/services/indexer.py:236-269 | the rebuilt index is the rebuild specification of the manifests listed, and the count returned is its number of packages |
| PackageIndex.RunMeaning | backend/services/indexer.py:74-126 | after any run of adds and removes no package is without versions, `latest` is the greatest key, and every lookup gives what the last operation on that name and version left |
| PackageIndex.ApplyMeaning | backend/services/indexer.py:74-126 | one add or remove keeps this invariant and changes the lookups it should and no other |
| PackageIndex.UnavailableIff | backend/services/indexer.py:93-96 | a name is among the missing dependencies of an entry exactly when a dependency of that name is recorded as unavailable |
| PackageIndex.RebuildIsRunOfAdds | backend/services/indexer.py:236-269 | the full rebuild equals the incremental adds made one after the other |
| PackageIndex.OrderIrrelevantIff | backend/services/indexer.py:74-106 | incremental adds in every order give the versions and `latest` of the rebuild exactly when no two manifests of one name and version would be stored differently |
| PackageIndex.AgreeingOrderIrrelevant | backend/services/indexer.py:236-269 | when manifests of one name and version would be stored alike, every order of the manifests gives the same versions and `latest` |
| PackageIndex.MovedLastShows | backend/services/indexer.py:74-106 | the manifest added last wins its name and version, so unlike manifests make the order visible |
| PackageIndex.LastAddDescribes | backend/services/indexer.py:74-126 | after any run of adds and removes a package has the description and section of the manifest of its name that was added last |
| PackageIndex.RebuiltDescribes | backend/services/indexer.py:236-269 | a rebuild has exactly the packages of its manifests, each with the description and section of the last manifest of its name |
| PackageIndex.SameIndexIff | backend/services/indexer.py:74-106 | every order of the manifests rebuilds the very same index exactly when, besides agreeing version by version, manifests of one name share description and section |
| TransitiveMissing.CollectTransitiveMissing | backend/services/indexer.py:145-184 | the recursive search over a shared, mutated visited set terminates and refines a pure exploration, in result and in visited names |
| TransitiveMissing.SuccessorsIff | backend/services/indexer.py:129-184 | the names the search goes on to are those recorded as missing with the latest version, without their architecture |
| TransitiveMissing.ExploreSound | backend/services/indexer.py:145-184 | for every depth cap and every set of names already visited, each name returned is absent from the index and reachable through stored missing dependencies of latest versions |
| TransitiveMissing.ExploreCovers | backend/services/indexer.py:145-184 | with at least as many levels left as unvisited packages, every package visited has its known dependencies visited and its absent ones returned |
| TransitiveMissing.ExactWhenDeepEnough | backend/services/indexer.py:145-184 | a cap of at least the number of packages less one makes the result exactly the absent reachable names |
| TransitiveMissing.ExactIffDeepEnough | backend/services/indexer.py:145-184 | a cap makes the search exact on every index of n packages if and only if it is at least n - 1 |
| TransitiveMissing.SharedVisitedHidesNearName | backend/services/indexer.py:145-184 | with the default cap an absent name three steps away can be missed, because a longer branch marked its parent visited at the cap |
| TransitiveMissing.DetourExists | backend/services/indexer.py:145-184 | an index on which the search misses that name exists |
| TransitiveMissing.ListMissing | backend/services/indexer.py:187-233 | the listing shows for each package its direct absent names, then those of each known dependency's own search, without repetition |
| TransitiveMissing.ShownMeaning | backend/services/indexer.py:187-233 | no name is shown twice and every name shown is absent and reachable; for up to five packages the list is complete |
| DependencyGraph.WithinIffPath | backend/services/importer_apk.py:151-175 | the set of names at most k steps away, by which the level searches are specified, is the set of ends of paths of at most k steps |
| DependencyGraph.Fixpoint | backend/services/importer_apk.py:151-175 | once a level adds no name no later level does |
| DependencyGraph.SearchDone | backend/services/importer_apk.py:151-175 | a search that stops early, because no row is left to expand, has already found what the full depth gives |
| ApkResolver.SearchLevels | backend/services/importer_apk.py:151-175 | though each token is processed once, the names found are exactly those other than the root within the depth limit, and the unresolved tokens exactly the tokens met that resolve to nothing |
| ApkResolver.ExpandLevel | backend/services/importer_apk.py:160-175 | one level of the search refines the fold of its tokens over the names and tokens found so far |
| ApkResolver.TokensIff | backend/services/importer_apk.py:130-131 | the tokens of a field are its words that do not begin with an exclamation mark |
| ApkResolver.ResolveTokenMeaning | backend/services/importer_apk.py:133-149 | a name followed by any version constraint resolves to that name, a capability to its provider, a path to nothing |
| ApkResolver.ResolveDepsOnline | backend/services/importer_apk.py:97-202 | an unknown root is reported; otherwise the sorted names, the sorted unresolved tokens and the three counts are those of the specification, each name with its row's version and whether some file of the pool begins with it |
| FileNames.FoundRightIff | backend/services/importer_apk.py:179-179 | for a pool of files of any packages the presence test is right exactly when a file of the package is there or the name and version of no package there begin with its name and a hyphen |
| FileNames.FoundRightByNamesIff | backend/services/importer_apk.py:248-250 | for versions that start with a digit and names in which no hyphen is followed by one, it is right exactly when a file of the package is there or no package there has a name that goes on with a hyphen after it |
| FileNames.BeginsIff | backend/services/importer_apk.py:179-179 | under these shapes a file is taken for a package exactly when it is that of the package or of one whose name goes on with a hyphen after it |
| RpmResolver.SearchLevels | backend/services/importer_rpm.py:147-174 | where the rows of one name agree, the names found and the unresolved tokens are exactly those of the specification; the virtual names recorded always resolve to the name they stand for |
| RpmResolver.ExpandLevel | backend/services/importer_rpm.py:157-174 | one level of the search refines the fold of its tokens, virtual names included |
| RpmResolver.TokensIff | backend/services/importer_rpm.py:132-138 | the tokens of a field are the first words of its parts that are names, other than the package's own |
| RpmResolver.ListPackages | backend/services/importer_rpm.py:176-184 | the list is the sorted names found, each with whether the repository has it and by which virtual name it was met; those to download are counted exactly |
| RpmResolver.ResolveDepsOnline | backend/services/importer_rpm.py:92-194 | the complete answer: not found, or names, unresolved tokens and counts: of the names listed, of those the repository has and of the others |
| AptImport.PlanImport | backend/services/importer_apt.py:386-430 | the dependency tree is exactly the names at most eight steps from the package, itself included; the two lists are the sorted names without and with a published file |
| AptImport.ExpandLevel | backend/services/importer_apt.py:404-412 | one level of the search refines the fold of the parsed names over the tree |
| AptImport.DepsIff | backend/services/importer_apt.py:386-412 | the dependencies of a name are the valid names of the parts of its row's field |
| AptImport.NameOfIs | backend/services/importer_apt.py:386-402 | a part gives the name it begins with, whatever version constraint, alternative or architecture follows |
| AptImport.SplitIsPartition | backend/services/importer_apt.py:422-430 | the two lists are sorted, disjoint and make up the tree, and only published names are skipped |
| AutoImport.AutoImportMissingDeps | backend/routers/upload.py:217-257 | the batch worklist gives the results and the final world of the specified run |
| AutoImport.UploadStreamDeps | backend/routers/upload.py:662-734 | the streaming copy gives the same results and the same final world as the batch worklist, and the events it sends are those of the run's steps and of the final tally |
| AutoImport.Installation.ImportDepOrError | backend/routers/upload.py:210-214 | an import that raises counts as an error result and leaves the world that import left |
| AutoImport.ResultsAreAnswers | backend/routers/upload.py:210-257 | the imports called follow one another from the first world to the last; each result is the answer of the last import called for its name, or an error when that call raised; a second call is made, after a refresh, exactly for the first answer that misses the index; and only names that an added or pending import asks for are queued |
| AutoImport.EventsTell | backend/routers/upload.py:662-734 | the stream reports every result once, as what it is, and every name queued, and its last event counts those reports |
| AutoImport.RunBounds | backend/routers/upload.py:217-257 | the run ends, with at most 50 results and no name processed twice, and a result that reports an index miss comes only after the single refresh of the index |
| AutoImport.CallsCounted | backend/routers/upload.py:241-250 | whatever counts the calls of `import_one` in the world sees one call per result, and one more exactly when the index was refreshed |
| AutoImport.ProcessedIsLeastFixpoint | backend/routers/upload.py:217-257 | when the queue empties, the processed names are the least set that holds the initial names and whatever the packages imported, added or pending, were missing in the catalogue right after their import |
| AutoImport.FinishInv | backend/routers/upload.py:217-257 | every iteration keeps distinct names, the count of calls and the queueing of what was revealed, and the run stops only on an empty queue or at the limit |
| AutoImport.FreshMeaning | backend/routers/upload.py:252-256 | the names newly queued are those revealed and not seen, each once |
| ImportLock.LockRegistry.GetLock | backend/services/import_lock.py:36-42 | one lock per key: the one there, or a new one, and different keys have different locks |
| ImportLock.Safety | backend/services/import_lock.py:36-67 | in every interleaving of any number of threads at most one is inside the section of a name and distribution, and a version is published again under a key only by a job that did not look for it |
| ImportLock.MutualExclusion | backend/services/import_lock.py:46-67 | two threads inside the section of one name and distribution are the same thread, wherever the registry and holder invariants hold |
| ImportLock.OneLockForever | backend/services/import_lock.py:36-42 | the lock of a key never changes |
| ImportLock.NoDeadlock | backend/services/import_lock.py:36-67 | while a thread is not done some thread can move |
| ImportLock.RunsEnd | backend/services/import_lock.py:36-67 | no run makes more than seven steps per thread |
| ImportLock.RepublishIff | backend/services/importer_apt.py:217-226 | a version already published can be published again by a later holder of its key exactly when the index row has no version or one that is not the version in the published file's name |
| ImportLock.EpochIsRepublished | backend/services/importer_apt.py:223-226 | a row that gives the very version downloaded prevents this exactly when the version has no epoch, which file names leave out |
| ImportLock.KeysSeparatePackages | backend/services/import_lock.py:65-65 | names without a colon share a lock only for the same name and distribution |
| MirrorLog.StreamExact | backend/services/mirror_manager.py:54-79 | in every interleaving a reader has sent exactly the lines from its starting index on, and when it announces the end it has sent every line logged before the status left running |
| MirrorLog.Reconnect | backend/services/mirror_manager.py:60-79 | a second connection at the index where the first stopped continues without gap or repetition |
| MirrorLog.LogOnlyGrows | backend/services/mirror_manager.py:45-58 | lines are never changed or removed and a stopped job stays stopped |
| MirrorLog.HolderCanMove | backend/services/mirror_manager.py:64-79 | whoever holds the log's lock can go on towards releasing it |
| MirrorLog.CertainIff | backend/services/mirror_manager.py:45-79 | for every start of a reader, a line is certain to be sent before the end is announced exactly when its index is below the length of the log when the job stopped |
| MirrorManager.AtMostOneRunning | backend/services/mirror_manager.py:111-140 | in every interleaving of starts, job steps and clean-ups at most one job is running |
| MirrorManager.StoppedStaysStopped | backend/services/mirror_manager.py:318-330 | no job returns to running and a clean-up never removes a running job |
| MirrorManager.RemovedWasOld | backend/services/mirror_manager.py:318-330 | in every interleaving a job that goes away had stopped and finished more than an hour before |
| MirrorManager.CleanUpRemovesOld | backend/services/mirror_manager.py:318-330 | a clean-up leaves no job that had finished more than an hour before it began |
| MirrorManager.ReturnsActiveJob | backend/services/mirror_manager.py:111-140 | the job returned was running at that moment: the active one found or the one just started |
| MirrorManager.MirrorJob.ImportAll | backend/services/mirror_manager.py:252-301 | at every loop head the packages done equal added, pending, blocked, skipped and error together and are at most the total; the counters are those of the results met, and the final status is the one the stop flag or an exception calls for |
| Lockout.Users.GetLockoutStatus | backend/auth/users.py:202-240 | the status read, an unknown account being unlocked |
| Lockout.Users.RecordFailedLogin | backend/auth/users.py:243-263 | a failure counts one more and sets the end of the lock when the maximum is reached, and touches no other account |
| Lockout.Users.Login | backend/auth/router.py:99-162 | lock first, then account, then password; only a right password resets, and a locked account is not touched |
| Lockout.RowInvHolds | backend/auth/users.py:243-273 | a lock end is set exactly when the failure count has reached the maximum: every failure establishes it, and a reset does so exactly for a maximum of at least one |
| Lockout.Spacing | backend/auth/users.py:202-263 | from the maximum on, consecutive wrong-password checks are at least a lockout apart |
| Lockout.ChecksBounded | backend/auth/router.py:99-162 | in every sequential run without a success, from any state, the checks within a span T number at most the maximum plus T divided by the lockout, rounded down |
| Lockout.BoundIff | backend/auth/users.py:202-263 | this bound holds for all runs exactly when the maximum is at least one |
| Lockout.BoundAttained | backend/auth/users.py:202-263 | the bound is reached by some run for every number of lockouts |
| IsoTime.FieldsAreTime | backend/auth/token_revocation.py:69-83 | calendar fields are ordered like instants, leap years included |
| IsoTime.FractionOrder | backend/auth/token_revocation.py:69-83 | an ISO text without a fraction comes before one with a fraction of the same second |
| IsoTime.IsoOrder | backend/auth/token_revocation.py:69-83 | ISO texts of UTC instants, with or without a fraction, compare by code point like the instants |
| IsoTime.DateTextOrder | backend/services/audit.py:17-19 | day file names compare by code point like days on the calendar |
| TokenRevocation.RevokedTokens.RevokeJti | backend/auth/token_revocation.py:31-54 | a row is added for the token, an existing one being left alone |
| TokenRevocation.RevokedTokens.PurgeExpired | backend/auth/token_revocation.py:69-83 | rows whose expiry text is before the current instant's text go, and their number is returned |
| TokenRevocation.RevokedTokens.DecodeToken | backend/auth/jwt.py:56-89 | a token is accepted exactly when it is unexpired, names someone, is not of the second factor's scope and has no identifier or one that is not revoked; its claims are then its subject, its role or reader, and its identifier |
| TokenRevocation.RevokedTokens.Logout | backend/auth/router.py:190-211 | a request let in revokes its token by identifier until its expiry |
| TokenRevocation.PurgeDropsIff | backend/auth/token_revocation.py:69-83 | a purge drops the row of a token exactly when the token expired before the purge |
| TokenRevocation.LoggedOutIsRefused | backend/auth/token_revocation.py:31-83 | in every run of issues, logouts, purges and clock steps a logged-out token with an identifier is refused ever after, its row purged or not |
| TokenRevocation.AcceptedIff | backend/auth/jwt.py:56-89 | in every reachable state an issued token is accepted exactly when it names someone, is not of the second factor's scope, has not expired and, if it has an identifier, was not logged out |
| TokenRevocation.SecondFactorNeverSkipped | backend/auth/jwt.py:72-74 | a token of the second factor's scope is accepted in no reachable state |
| TokenRevocation.NotLoggedOutIsAccepted | backend/auth/jwt.py:56-89 | a token issued in a run without a logout of it, named, unscoped and unexpired, is accepted |
| TokenRevocation.LogoutEffectiveIff | backend/auth/router.py:190-211 | a logout is effective exactly when the token carries an identifier or had expired by then |
| CveRotation.WorstAction | backend/services/cve_rematch.py:146-156 | whatever the order in which new CVEs are looked at, the action is block if one asks for it, allow if all do, review otherwise |
| CveRotation.ManifestTable.RematchOne | backend/services/cve_rematch.py:75-182 | a skipped or failed match writes nothing; any other stamps the row, stores the CVEs found, and sends a validated manifest to review exactly when it found a CVE not known before for whose severity the policy says block or review |
| CveRotation.ManifestTable.RunCveRematch | backend/services/cve_rematch.py:185-215 | a run rematches its batch in order up to the time limit, and its summary counts the outcomes |
| CveRotation.RunIsTurn | backend/services/cve_rematch.py:185-215 | a complete run over a fetched batch is a turn of the rotation |
| CveRotation.EligibleAfterIff | backend/services/cve_rematch.py:158-170 | a manifest visited once in a run stays in the rotation exactly when its match did not call for a review |
| CveRotation.FlaggedIsNotTakenAgain | backend/services/cve_rematch.py:54-72 | a manifest flagged in one run is in no batch of any later run |
| CveRotation.SummaryAddsUp | backend/services/cve_rematch.py:185-215 | every visit is counted as scanned or skipped, failures as errors, and the manifests counted as flagged are those that left the rotation |
| CveRotation.Progress | backend/services/cve_rematch.py:54-72 | a turn that leaves a manifest out brings it forward by the limit less the stuck manifests before it |
| CveRotation.RematchedWithin | backend/services/cve_rematch.py:54-72 | with n eligible manifests of which k below the limit L are ever skipped or failing, every other one is in a batch within the smallest number of runs r with r(L-k) at least n-k |
| CveRotation.RunLeaves | backend/services/cve_rematch.py:93-128 | a run rewrites neither the manifests it does not visit nor those it meets without a stored SBOM or with a failed match |
| CveRotation.Starvation | backend/services/cve_rematch.py:54-72 | as many older manifests as the limit, met at every visit without a stored SBOM or with a failure, keep a manifest out of every batch of every run, cut by the time limit or not |
| CveRotation.RematchedIff | backend/services/cve_rematch.py:54-72 | with distinct stamps and manifests that always fail, a manifest is reached exactly when fewer of them than the limit are older than it |
| IndexState.Database.IsUnchanged | backend/services/index_state.py:33-58 | true exactly when the fingerprint is non-empty, the database answers and the stored fingerprint equals it |
| IndexState.Database.RememberMark | backend/services/index_state.py:61-81 | stores a non-empty fingerprint for that source, unless the write fails, which is only logged |
| IndexState.Database.ClearMark | backend/services/index_state.py:84-93 | forgets that source's fingerprint, unless the write fails, which is only logged |
| IndexState.Database.FlushToDb | backend/services/package_index_rpm.py:868-894 | one transaction replaces or extends the source's rows, a row taking the place of the one with its key and rows without one being added |
| IndexState.ClashFreeWritten | backend/services/package_index_rpm.py:868-894 | where no two rows collide the complete copy is exactly the rows of the catalogue, in order |
| IndexState.Database.StreamDownloadAndParse | backend/services/package_index_rpm.py:843-961 | wherever the stream or the process stops, the table is what the transactions made so far give; a count is returned exactly when the whole stream was written and is what was announced |
| IndexState.Database.InsertAll | backend/services/package_index_apt.py:823-834 | the plain insert commits exactly when no two rows collide on the unique key of the table, and otherwise leaves everything as it was |
| IndexState.Database.SyncApt | backend/services/package_index_apt.py:750-862 | a cycle leaves the database where its first transactions, as many as were reached, take it; it is skipped exactly for an unforced, readable, equal, non-empty fingerprint over a non-empty table, succeeds exactly for an index that is what was announced, without colliding rows, and then leaves the complete copy under its fingerprint; an index that is not what was announced, and other sources, are left alone |
| IndexState.Database.SyncApk | backend/services/package_index_apk.py:445-530 | the same for an Alpine source, whose fingerprint is that of the archive downloaded: an archive whose signature is wrong changes nothing and never succeeds |
| IndexState.Database.SyncRpm | backend/services/package_index_rpm.py:978-1072 | the same for an RPM source, rewritten in batches that are verified only after they are committed: it succeeds exactly for a stream read to its end that has rows and is what was announced |
| IndexState.SplitMeaning | backend/services/package_index_rpm.py:903-937 | cutting a stream into batches loses and reorders nothing, and all batches but the last are full |
| IndexState.StreamBegins | backend/services/package_index_rpm.py:903-937 | the batches written after any number of entries are the first ones of the whole stream |
| IndexState.StreamCopies | backend/services/package_index_rpm.py:903-937 | a stream written to its end leaves exactly its complete copy, whatever the table held before |
| IndexState.CycleSound | backend/services/index_state.py:13-21 | cut short anywhere, a cycle keeps every stored fingerprint standing for a complete copy, provided its clearing commits, or there was nothing to clear, or the cycle gets no further than that clearing |
| IndexState.FailedClearIsAlone | backend/services/index_state.py:84-93 | a cycle that gets no further than a clearing that fails leaves the database as it was |
| IndexState.UnchangedMeansComplete | backend/services/index_state.py:49-58 | after any run of such cycles, upstream serving anything at any time, a source is called unchanged only when its table is a complete copy of the content with that fingerprint |
| IndexState.NothingUnvouched | backend/services/package_index_apk.py:383-392 | after any run of cycles, harmless or not, every row and every fingerprint of a source comes from a catalogue that a cycle of the run was served for it: an Alpine one from an archive with a right signature, a Debian one with the digest announced |
| IndexState.CopyMeaning | backend/services/package_index_rpm.py:860-900 | the complete copy of a catalogue has the last row of each unique key and every row without one; for Alpine every row in order |
| IndexState.CrashSafeIff | backend/services/index_state.py:84-93 | a cycle that would change the table is safe at every interruption point exactly when its clearing commits or no fingerprint is stored |
| IndexState.OverlapIff | backend/services/index_state.py:13-21 | two clearing cycles that replace the table of one source, from any database where stored fingerprints stand for copies: every interleaving, cut short anywhere, keeps this if and only if they write the same rows or neither stores its fingerprint |
| IndexState.AloneIsCycle | backend/services/index_state.py:13-21 | interleaved cycles are those cycles: one that has all its turns first, the fingerprint test and n transactions, is the cycle on its own cut short after n |
| IndexState.StreamOverlapBreaks | backend/services/package_index_rpm.py:1020-1065 | an RPM cycle that begins while another of its source is about to store its fingerprint leaves it stored over a first batch, whatever the two catalogues, unless that batch is the whole copy |
| IndexState.GuardOverRuns | backend/services/package_index_apt.py:774-790 | after any run of harmless cycles the guard on the number of indexed packages protects against a table changed from outside exactly when it was emptied or left as it was: a partial restoration is skipped, against the comment |
| Publication.Repository.UploadPackage | backend/routers/upload.py:303-439 | refused, duplicate, conflicting, rejected and accepted uploads, with the whole state each leaves |
| Publication.Repository.ImportOne | backend/services/importer_apt.py:217-305 | an import that is not skipped and passes stores the file over any file of that name, and publishes it unless a review is due; it is skipped for an Alpine file in the pool that begins with the name, for a Debian row whose version is that of a file the repository has, and never for an RPM package |
| Publication.Repository.AddToRepo | backend/services/distributions_rpm.py:216-241 | a file that the tool takes goes to its place in the repository, over whatever was there, and every hand-over is recorded |
| Publication.Repository.RemovePackage | backend/services/distributions.py:226-271 | exactly the places that the installation's removal reaches are cleared: in the trees by the beginning of the file name, in reprepro by name, and only in the formats the removal looks at |
| Publication.Repository.DecidePackage | backend/routers/decision_router.py:284-387 | a decision is taken into account exactly for a valid action, a justification and a manifest not quarantined, with the whole state it leaves |
| Publication.Repository.QuarantinePackage | backend/routers/decision_router.py:583-643 | which file is moved, what is withdrawn and which manifest is marked |
| Publication.Repository.RematchOne | backend/services/cve_rematch.py:161-170 | a later match moves only a validated manifest, and only to review |
| Publication.HandedIsJustified | backend/routers/upload.py:436-439 | in every run the n-th file handed over was handed over by a step that itself gives the grounds, a check without a review or a decision to accept, and its very bytes had passed validation at that step or an earlier one |
| Publication.HandsIff | backend/routers/decision_router.py:363-377 | a step of a run hands a file over exactly when it brings in one that needs no review or accepts one that is in the pool, a decision to the tool of the installation |
| Publication.PoolIsStored | backend/routers/upload.py:413-415 | in every run each file in the pool passed validation with those very bytes at the step that brought it in |
| Publication.RecordsAreBrought | backend/routers/upload.py:390-434 | in every run each manifest was brought in by a step whose validation passed: a rejected upload never enters them |
| Publication.IndexIsOfManifests | backend/routers/upload.py:417-434 | in every run the index holds exactly the versions of the manifests |
| Publication.StatusIsHistory | backend/routers/decision_router.py:348-351 | after any run the status of a manifest is the one that the last step about it called for: validated or pending when brought in, accepted risk, exception, quarantined or upgrade required by a decision (security_decisions.py:31-36), quarantined, or pending when a new match flagged it |
| Publication.SettledStays | backend/routers/decision_router.py:284-351 | whatever a step calls for is the status over any run until another step is about that manifest |
| Publication.RecordIsLastBrought | backend/routers/upload.py:417-434 | a manifest names the file, bytes and distribution of the last step that brought the package in |
| Publication.BytesAreKept | backend/routers/decision_router.py:379-387 | at every step of a run a file that leaves the pool goes to the quarantine with its bytes, and so does a rejected upload, which changes nothing else |
| Publication.UploadsKeepPool | backend/routers/upload.py:363-415 | no run of uploads changes a file that was in the pool |
| Publication.PoolFileChangesIff | backend/routers/decision_router.py:379-387 | a step changes or removes a pool file exactly when it is an import of other bytes under its name, a rejection or a quarantine of it |
| Publication.PoolFileKept | backend/routers/decision_router.py:379-387 | over any stretch of a run a pool file is as it was unless one of those steps was made on it |
| Publication.QuarantineHolds | backend/routers/decision_router.py:304-308 | a quarantined version stays quarantined over any run until it is brought in again |
| Publication.ServedIsPut | backend/services/distributions_rpm.py:216-241 | in every run each place that is served holds the bytes that one step of the run put there: a checked file that asked for no review, or a file of the pool that a decision accepted |
| Publication.PlacesHoldTheirOwn | backend/services/distributions_rpm.py:216-241 | after any run each Debian or Alpine place holds the package it is named after, and uploads fill the places of their own format unless one format is served alone |
| Publication.RepreproHoldsNoOthers | backend/services/distributions.py:226-271 | after any run no Debian place holds a file named as an RPM or Alpine package |
| Publication.RpmPlacesAgree | backend/services/distributions_rpm.py:216-241 | an RPM file named for one listed architecture goes to the same place by the importer's script as by uploads and decisions |
| Publication.WithdrawsOthersIff | backend/services/distributions_rpm.py:416-451 | a quarantine withdraws exactly its own package if and only if no served package of that format has a name that goes on with a hyphen after it |
| Publication.WithdrawableIff | backend/services/distributions.py:109-271 | a package that is served can be withdrawn by some run of any steps if and only if the installation looks there: for a Debian package where Debian packages are served, for an RPM package if RPM is served alone or beside Debian packages, for an Alpine package if Alpine is served alone, and for these in a listed architecture |
| Publication.QuarantineWithdrawsIff | backend/services/distributions.py:109-271 | a quarantine of its name withdraws a served package exactly there |
| Publication.NeverWithdrawn | backend/services/distributions.py:202-206 | elsewhere, and so for RPM and Alpine files with all formats together, what is served once stays served over every run |
| Publication.ServedByCheck | backend/routers/decision_router.py:363-377 | in every run a place of another format than that of the tool decisions call is filled by an upload or an import whose check asked for no review, never by a decision: so for Alpine packages, and for RPM packages where Debian packages are served too |
| Publication.FlaggedIsStillServed | backend/services/cve_rematch.py:161-170 | after any run a package published on upload and flagged by the next match is under review and served, although the life cycle described in security_decisions.py keeps it out |
| Publication.AbsentIsSkippedIff | backend/services/importer_apk.py:248-250 | importing an Alpine package that is not in the pool is skipped exactly when a package there has a name that goes on with a hyphen after it |
| Publication.SkippedForGood | backend/services/importer_apk.py:248-250 | an Alpine package skipped because of another package's file is skipped at every later point of the run, as long as that file is not changed |
| Publication.FaithfulIff | backend/routers/decision_router.py:363-377 | for any relation of file names to the bytes they allow: in every run that respects it the files of the manifests hold the bytes the manifests describe, if and only if no name allows two packages |
| Publication.DecisionsAreFaithful | backend/routers/decision_router.py:363-377 | where no name allows two packages, each file handed over by a decision holds the bytes that its manifest described when the decision was taken |
| Publication.AcceptedBytesCanDiffer | backend/services/importer_apt.py:254-256 | where names do not tell, an import can replace the file of a manifest under review, and accepting that manifest hands over bytes that nobody reviewed |
| LicenseKey.PaddingRoundTrip | backend/services/license.py:133-136 | for every byte string the unpadded text has a length that is never 1 modulo 4, padding it again gives the encoder's text and scanning that gives the bytes back |
| LicenseKey.ScanInverts | backend/services/license.py:168-171 | the lenient decoder, character by character, undoes the encoder (section 5 of RFC 4648) |
| LicenseKey.EncodedShape | backend/services/license.py:134-134 | the encoder's text is symbols followed by the padding their number calls for |
| LicenseKey.KeySplits | backend/services/license.py:158-158 | splitting at the last dot recovers the payload text and the signature, whatever dots the text has |
| LicenseKey.GeneratedKeyDecodes | backend/services/license.py:89-198 | every generated key decodes to its payload, is active up to its expiry and no later, and shows the days remaining |
| LicenseKey.LicenceIff | backend/services/license.py:145-198 | a key is taken as a licence exactly when it is the signed form of a text that holds a JSON object |
| LicenseKey.LicenceMeaning | backend/services/license.py:174-198 | such a key gives its payload, expired exactly after its expiry, with the whole days left, none when past; without a readable expiry it does not expire |
| LicenseKey.RaisesIff | backend/services/license.py:158-173 | decoding raises something else than the error for invalid keys exactly on a dotted body with a character outside ASCII or on signed JSON that is not an object |
| LicenseKey.LicenseStore.ActivateLicense | backend/services/license.py:212-232 | only a key that decodes and has not expired replaces the stored one |
| LicenseKey.LicenseStore.GetEdition | backend/services/license.py:244-272 | enterprise exactly for a stored, valid, unexpired enterprise key; an exception other than the one for invalid keys goes through to the caller |
| LicenseKey.ActivatedUntilExpiry | backend/services/license.py:212-272 | an enterprise key once activated gives the edition until its expiry and not after |
| DistributionsConf.ConfDir.WriteDistributionsConf | backend/routers/distributions_router.py:194-213 | the file is the blocks of the APT entries, joined by blank lines |
| DistributionsConf.WrittenHolds | backend/routers/distributions_router.py:194-213 | read line by line, the file written is the entries of the APT distributions in the table's order with a blank line between two, each with its SignWith line exactly when there is a key, and nothing else |
| DistributionsConf.ConfDir.DistributionsConfIsComplete | backend/routers/distributions_router.py:216-268 | the line loop decides completeness, an absent file being incomplete |
| DistributionsConf.ParserMeaning | backend/routers/distributions_router.py:237-243 | a codename has architectures exactly when some architecture line stands under it, and they are those of the last such line |
| DistributionsConf.CompleteIff | backend/routers/distributions_router.py:216-268 | any text is judged complete exactly when, for every required codename, the last architecture line under it names all required architectures |
| DistributionsConf.WrittenIsCompleteIff | backend/routers/distributions_router.py:194-268 | for line-break-free labels, codenames and key, the file just written is judged complete exactly when every APT codename is non-empty and has no white space at its ends |
| DistributionsConf.LinesConcat | backend/routers/distributions_router.py:239-239 | reading a text that ends with a line end and what follows it can be done apart |
| DistributionsConf.ConfDir.AutoInitApt | backend/routers/distributions_router.py:304-326 | the file is rewritten exactly when it is not complete |
| DistributionsConf.RepairOnce | backend/routers/distributions_router.py:304-326 | a repair is never followed by another, whatever key is in use then, exactly where every APT codename is non-empty and has no white space at its ends |
| DistributionsConf.ShippedTableIsStable | backend/routers/distributions_router.py:158-169 | the shipped table has such codenames |
| AuditLog.AuditDir.Log | backend/services/audit.py:22-54 | an entry goes to the day file of the moment of writing; empty members are left out and extra ones override |
| AuditLog.AuditDir.GetRecentLogs | backend/services/audit.py:70-93 | the nested reverse loops with their early exits give the newest entries of all that can be read, none for a limit of zero or less |
| AuditLog.AuditDir.GetPackageHistory | backend/services/audit.py:96-113 | the entries of that package in all the files, in order, a file that is not text being read up to the block that cannot be decoded |
| AuditLog.ReadableIsKept | backend/services/audit.py:17-93 | after any run of writes cut anywhere, with a clock that does not go back, over any days, what can be read is exactly the entries kept, in logging order: an entry is kept if and only if its file has no write, before or after it, cut inside a character, it does not follow in its file a write that left a line unfinished, and it is whole or lacks only its line end with nothing written after it |
| AuditLog.HistoryOfGarbledDay | backend/services/audit.py:96-113 | of a day with a write cut inside a character, the history has at most the entries written whole before the first such write, in order, and all of them when they were decoded |
| AuditLog.NothingLost | backend/services/audit.py:52-54 | when no write is cut short every entry is kept |
| AuditLog.ReadersOverRuns | backend/services/audit.py:70-113 | over a whole run the readers give the last entries kept, newest first, and, where no write was cut inside a character, those kept of the package in logging order |
| AuditLog.NewestAt | backend/services/audit.py:70-93 | entry k of the answer is the entry kept k-th last |
| AuditLog.MembersLogged | backend/services/audit.py:37-50 | an entry has the four members of its call always, the optional ones when not empty, and what the call adds, which replaces members of the same name |
| AuditLog.LoggedIsInHistory | backend/services/audit.py:22-113 | a call for a package written whole on a day without unfinished or garbled lines appears in that package's history with its action, user and result |
| AuditLog.OfPackageIff | backend/services/audit.py:96-113 | the history of a package has exactly the entries read that name it |

## Left out

- HTTP routing, authentication of requests, e-mails, notifications, the front end and the texts of events: plumbing and display.
- Subprocesses, GPG, antivirus and CVE scanners, HMAC, SHA-256 and bcrypt: their outcomes are parameters; digests are taken as injective where a statement requires it, and the publication model identifies a file with its bytes.
- SQL and JSON: tables are maps, each transaction is one step, and JSON encoding is a pair of functions of which the statement requires that they are inverse.
- RpmResolver.SearchLevels: exactness is stated where the rows of one package name agree, because the first token that resolves to a name decides which row is expanded.
- Lockout.ChecksBounded: stated for sequential attempts, because the code checks the lock and counts the failure in separate statements.
- Publication.UploadsKeepPool: stated for sequential steps, because the duplicate test and the move into the pool are separate; the tests of file name, extension and distribution are one parameter, and the streaming upload, whose pipeline repeats this one, is represented only by its dependency loop.
- Publication.QuarantinePackage: manifests without a file name, and how a search by name picks among several files, are outside the model; the file found is a parameter.
- Publication.ServedIsPut: reprepro's own rules, such as refusing an older version, appear as a file not placed, its pool is taken to have the files of the packages it serves and no others, and places a tool fails to clear are a parameter; pattern characters in package names are not interpreted.
- CveRotation.RematchedWithin: runs cut by the time limit, and runs ended by an exception of a re-match, are not turns; both leave the rest of the batch unstamped.
- IndexState.UnchangedMeansComplete: identifiers of Alpine and of other sources are distinct, and cycles of one source do not overlap; when exactly two of them may is stated by OverlapIff.
- TokenRevocation.RevokedTokens.DecodeToken: the signature check is taken as passed, and a token's sub and role members as text.
- TokenRevocation.LoggedOutIsRefused: identifiers are taken as never drawn twice, and `logout` also requires an active user account, which is not modelled.
- LicenseKey.GeneratedKeyDecodes: the issue date, the quotas and the text form of the expiry are not modelled; times are whole microseconds.
- AuditLog.AuditDir.GetPackageHistory: lines of JSON that are not objects, which the code never writes and on which the reader gives up the rest of the file, and files that cannot be read.
- AuditLog.ReadableIsKept: years before 1000, which `strftime` does not pad.
- AptImport.PlanImport: letters outside ASCII in package names, which the code accepts, and the architecture filter of the row look-up.
- ApkResolver.ResolveDepsOnline: the look-up of rows by distribution and architecture is a map from names to rows, and likewise for providers.
- MirrorManager.RemovedWasOld: a job's time of finishing is set once, and a clean-up compares with the time at which it begins.
- MirrorManager.MirrorJob.ImportAll: the mirror job's own level search, which repeats the importers' search from several roots, and the disk space check's source.
- AutoImport.UploadStreamDeps: the events that repeat each dependency's validation steps.
- PackageIndex.Index.AddToIndex: the CVE summary extracted from validation steps, and the index file's locking and serialisation.
- Promotion between distributions, snapshots, inventory, webhooks, settings, health, metrics and pagination: easy or without a crisp statement.
