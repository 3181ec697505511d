# Manager and agents: a verified model

The repository is a manager that hands out DNS configurations, certificates and program versions to
agents over one heartbeat protocol, and keeps all of it on disk.  This project models the parts whose
promises cross functions, retries, restarts and interleavings, and proves those promises.

- `ConfigRender`, `ConfigPush`, `ConfigPushRuns`: from a saved configuration and the DNS keys to the text
  an agent runs, and the loop of hash echo, key version and invalidation that keeps it current.
- `CertPush`, `CertPushRuns`: what a heartbeat reports about deployed certificates, what the response
  carries, force flags, and the sentinel left by a failed binding.
- `SemVer`, `UpgradePush`: version order, the manifest of binaries, and the offer of a new version with
  retry, back-off, abandonment and completion.
- `Names`, `Bundles`, `BundleStore`, `BundleHistory`: bundle directories, their hash, the metadata shared
  by several owners, and the password of the PFX containers over any sequence of operations.
- `PfxCheck`, `PfxReconcile`, `CertDelivery`: whether the containers match the PEM files, the rebuild by any
  number of concurrent heartbeats, and what is announced to agents afterwards.
- `NodeStore`: node records shared by reference between cache and handlers.
- `Crypto`, `DnsKeyStore`, `StorageKey`: encryption at rest, the two forms of the DNS-key file, and the
  life of the storage key.
- `CertRenewal`: concurrent ACME renewals.  `AcmeHome`, `AcmeEnv`: where acme.sh may work, and its
  environment.
- `EventLog`, `LogBuffer`, `Ring`: rings that must agree with an unbounded sequence.
- `RateLimiter`, `AccessStats`: token buckets with eviction; minute buckets with pruning.

Objects with fields are classes; each of their methods is proved against a function of the old state.
Protocols are functions from a world and an event to a world; an event that is not possible changes
nothing, and a run is any sequence of events.  Every theorem about runs is for all sequences.

Assumptions that a reader should know:

- A hash is idealised as the text it is computed from, encryption as a sealed value that opens under its
  own key and purpose only.  A file is a sequence of units (certificates, keys, containers, bytes), so
  concatenation loses file boundaries in the model as it does in the program.
- Each HTTP handler is one step, except that a key edit is three.  A save or load of a bundle is one step.
- Disk writes succeed unless a parameter of the step says otherwise.

Where code and its documentation differ, the model follows the code:

- A pre-release never compares below its release; a suffix with a dot can even raise it
  (`SemVer.PreReleaseExactly`).
- Deleting a DNS key, and tracking or removing its users, write the file in plain form although saves seal
  it (`DnsKeyStore.PlainAfterRunExactly`).
- A renewal whose second look cannot read the certificate proceeds (`CertRenewal.SecondLookDecides`).
- `Commit` of the agent's log buffer also passes over lines the last `Peek` did not show, and `Drain`
  leaves the cursor behind.
- A reload of the event log that reads more lines than the ring holds, but not a multiple, leaves the ring
  rotated (`EventLog.Logger.Open`).
- The start-up checks of the storage key do not look at EAB keys (`StorageKey.EabKeysLostExactly`).
- The mark of a deployed certificate records the binding, not that every file was written
  (`CertPushRuns.MarkIsTruthfulExactly`).
- A configuration refused for a missing certificate has already changed the record in memory.

## Model

| member | source | states |
|---|---|---|
| ConfigRender.RenderConfig | internal/server/handlers_nodes.go:759-903 | the loop over the cards yields the specified text, or the error of the first card that fails |
| ConfigRender.RendersIff | internal/server/handlers_nodes.go:759-903 | a configuration renders exactly when it has cards and every card names an existing key with a provider |
| ConfigRender.ItemsInOrder | internal/server/handlers_nodes.go:759-903 | each card gives its own item, in the order of the cards |
| ConfigRender.CardsFrame | internal/store/store.go:992-1015 | changing or deleting a key no card names cannot change what the cards render to, success or error |
| ConfigRender.RenderFrame | internal/store/store.go:992-1015 | a key that nodeUsesDNSKey rejects cannot change the rendering, so not invalidating that node is sound |
| ConfigRender.ItemsSay | internal/server/handlers_nodes.go:777-846 | every item in terms of its card and key: provider, id and secret of the key, TTL or "300", and for each address family the switch, the named domains in order, the get type and the default URL of that family |
| ConfigRender.NamedExactly | internal/server/handlers_nodes.go:777-846 | of the domains of a card exactly the blank ones go, the rest in order |
| ConfigRender.FirstFailureDecides | internal/server/handlers_nodes.go:759-846 | the error of a rendering is that of the first card whose key is missing or has no provider |
| ConfigPush.Manager.Heartbeat | internal/server/handlers_nodes.go:289-318 | the whole record and response after the config part of a heartbeat: when it renders, when it pushes, what it records; other nodes and keys untouched |
| ConfigPush.Manager.SaveConfig | internal/server/handlers_nodes.go:508-625 | accepted exactly when node, keys and bindings exist; the record in memory changes even when a missing certificate refuses the request, the file does not |
| ConfigPush.Manager.SaveKey | internal/server/handlers_admin.go:170-189 | blank fields of the request keep the old credentials, other keys stay |
| ConfigPush.Manager.Invalidate | internal/store/store.go:951-985 | exactly the nodes that refer to the key lose their recorded hash; the file is written only if there was one |
| ConfigPush.Agent.Report | cmd/agent/main.go:439-488 | the agent reports the hash of its own disk after a restart and loads its cache once |
| ConfigPush.Agent.Apply | cmd/agent/main.go:530-571 | cache before hash: a failed step leaves the reported hash at the old value |
| ConfigPush.PushedExactly | internal/server/handlers_nodes.go:289-318 | when a heartbeat brings a configuration, an error or nothing, in terms of approval, recorded hash, key version and what the agent runs: both directions |
| ConfigPush.RefusedConfigExactly | internal/server/handlers_nodes.go:508-600 | a configuration is refused exactly if it names a key that does not exist |
| ConfigPush.EditKeepsBlankFields | internal/server/handlers_admin.go:170-189 | each field of an edited key is the one given, or the old one if blank |
| ConfigPush.ConcernsExactly | internal/store/store.go:992-1015 | a key concerns a configuration exactly if a card names it, or the older form refers to it by name or provider |
| ConfigPush.FailuresStopTheAgent | cmd/agent/main.go:530-571 | how far an agent gets when a write fails: nothing later than the failed step has happened |
| ConfigPush.RestartReads | cmd/agent/main.go:439-460 | after a restart an agent runs and reports what is in its two files |
| ConfigPushRuns.StepKeepsGood | internal/server/handlers_nodes.go:289-318 | every event of the protocol keeps the record of every node good against its agent: equal hash at the current version means current |
| ConfigPushRuns.KeyEditKeepsNode | internal/server/handlers_admin.go:189-197 | saving or deleting a key keeps every record good, because the edit in progress excuses the nodes that name the key |
| ConfigPushRuns.SilenceMeansCurrent | internal/server/handlers_nodes.go:289-318 | over every run with lost responses, key edits in three calls and restarts: a heartbeat with neither push nor error means the agent runs exactly the current rendering |
| ConfigPushRuns.OneHeartbeatConverges | internal/server/handlers_nodes.go:289-318 | once edits stop, one delivered heartbeat makes the agent current, and through every later run nothing is pushed to it again |
| ConfigPushRuns.SilenceMeansCurrentDespiteLateReports | cmd/agent/main.go:673-716 | the same with follow-up heartbeats that report any hash at any time, outside the whole of a key edit |
| ConfigPushRuns.OneHeartbeatConvergesDespiteLateReports | cmd/agent/main.go:673-716 | outside an edit, one delivered heartbeat is enough after any run with late follow-ups, and for good |
| ConfigPushRuns.FailedHashWriteThenRevert | cmd/agent/main.go:564-571 | a failed hash write followed by a revert leaves a silent agent current exactly when both configurations render alike |
| ConfigPushRuns.SavedConfigArrives | internal/server/handlers_nodes.go:508-625 | an accepted configuration that renders is what the agent runs after its next delivered heartbeat, whatever was on record |
| ConfigPushRuns.EditedKeyArrives | internal/server/handlers_admin.go:170-197 | after the three calls of a key edit one delivered heartbeat brings the rendering with the new key to every node that names it |
| ConfigPushRuns.DeletedKeyIsReported | internal/server/handlers_nodes.go:289-318 | after the three calls of a deletion a node that names the key is told of it and gets no configuration |
| ConfigPushRuns.PushIsRecorded | internal/server/handlers_nodes.go:300-318 | what is pushed is on record with its hash and key version, for heartbeats and follow-ups; a record changes only by catching up with the keys |
| ConfigPushRuns.OthersNotConcerned | internal/server/handlers_nodes.go:289-318 | saves, heartbeats and restarts of one node leave the records and agents of all others alone |
| ConfigPushRuns.FileKeepsUp | internal/store/store.go:197-233 | over every run without a refused request the file holds the records in memory |
| ConfigPushRuns.RefusedConfigIsForgotten | internal/server/handlers_nodes.go:588-625 | a request refused for a missing certificate is in memory only, and gone after a restart |
| ConfigPushRuns.RestartSetsBaseline | internal/store/store.go:568-600 | keys without a recorded version get one at a start, and every approved node with an older record is then rendered anew |
| ConfigPushRuns.VersionCountsBumps | internal/store/store.go:604-625 | over every run the key version never falls, and rises only by bumps once there is one |
| ConfigPushRuns.InvalidatedExactly | internal/store/store.go:951-985 | the last call of an edit takes the recorded hash from exactly the nodes that name the key, for all or one card, or ask for its provider; the file is written only if there was one |
| ConfigPushRuns.RefusedChangesNothing | internal/server/handlers_nodes.go:508-600 | a request that names a missing key changes nothing |
| ConfigPushRuns.AgentsOwnEvents | cmd/agent/main.go:439-488 | a lost response leaves the agent as it woke up, a restart leaves it its two files |
| SemVer.CompareSemVer | internal/model/model.go:252-278 | the parsing and comparing loops compute the comparison of the first three numbers |
| SemVer.NumbersOf | internal/model/model.go:255-266 | missing pieces count as zero, pieces after the third do not count |
| SemVer.TotalPreorder | internal/model/model.go:252-278 | the comparison is reflexive, antisymmetric in sign, transitive and total; 0 exactly for versions with equal numbers |
| SemVer.PreReleaseExactly | internal/model/model.go:252-278 | a pre-release version compares equal to its release exactly if no further piece of the suffix counts, above it otherwise, and never below it, where item 11.3 of Semantic Versioning 2.0.0 asks for below |
| SemVer.PreReleaseCounts | internal/model/model.go:252-278 | 1.5-rc.1 compares above 1.5 |
| SemVer.RebuildManifest | internal/store/store.go:1234-1324 | each platform with an eligible file is mapped to one of maximal version, and no other platform is listed |
| SemVer.ManifestIgnoresOrder | internal/store/store.go:1234-1324 | whatever the directory order, the platforms are the same and the versions offered compare equal |
| SemVer.DevIsLowest | cmd/agent/main.go:1414-1421 | no version is below "dev", so a release never becomes "dev" |
| SemVer.VersionsIncrease | cmd/agent/main.go:1414-1421 | under any sequence of named pushes a released agent never moves to a lower version, and each actual change is strictly upwards |
| SemVer.ParseReadsBack | internal/model/model.go:252-278 | the text of any three numbers that fit is read back as those numbers, with or without a v |
| SemVer.AtoiReadsBack | internal/model/model.go:255-266 | decimal digits are read back as the number they denote, as far as it fits a signed 64-bit integer |
| SemVer.MissingPiecesAreZero | internal/model/model.go:255-266 | a version of one or two numbers compares as if the others were zero |
| SemVer.FirstDifferenceDecides | internal/model/model.go:252-278 | the comparison is that of the first of major, minor and patch that differs: both directions |
| SemVer.UpgradedExactly | cmd/agent/main.go:1414-1421 | an agent moves exactly if the program can be installed and the version offered is above its own, or one of them is not known; then to that version |
| UpgradePush.AgentConfig.Heartbeat | internal/server/handlers_nodes.go:189-279 | the whole upgrade state and the offer after a heartbeat, with back-off, abandonment and completion |
| UpgradePush.AgentConfig.SetVersion | internal/server/handlers_admin.go:383-405 | a different version clears all jobs, the same one revives those given up |
| UpgradePush.PushesAreBounded | internal/server/handlers_nodes.go:189-279 | over every run each job targets the latest version, counts exactly the pushes of its lifetime, at most five, at least ten minutes apart |
| UpgradePush.OnlyOutdatedNodesArePushed | internal/server/handlers_nodes.go:201-262 | what is offered is the latest version, to a node reporting another one |
| UpgradePush.CompletionIsFinal | internal/server/handlers_nodes.go:189-279 | after completion the node is never pushed that version until the version changes |
| UpgradePush.CompletedExactlyOnArrival | internal/server/handlers_nodes.go:201-252 | a waiting job is completed by the first heartbeat reporting the latest version and by nothing else |
| UpgradePush.OfferedExactly | internal/server/handlers_nodes.go:201-270 | over every run: a heartbeat is offered the latest version exactly if there is a binary, the reported version compares unequal, and the node has no job or one not complete, at least 600 seconds old and pushed fewer than 5 times |
| UpgradePush.SettingAgainRevives | internal/server/handlers_admin.go:383-405 | setting the same version again forgets exactly the jobs given up, and their nodes are offered it at once |
| UpgradePush.NewVersionStartsOver | internal/server/handlers_admin.go:383-405 | any other version, set or uploaded, leaves no job, and every node reporting something else is offered it |
| CertPush.CollectCertHashes | cmd/agent/main.go:1128-1247 | the three passes report each directory once: its mark, else the hash of what is found there |
| CertPush.NodeRecord.CertUpdates | internal/server/handlers_nodes.go:320-419 | the response and the remaining force flags, binding by binding |
| CertPush.NodeRecord.Matches | internal/server/handlers_nodes.go:341-356 | the two searches together find the hash exactly when some directory reports it |
| CertPush.Agent.ApplyCertUpdates | cmd/agent/main.go:722-945 | all directories after a response: files laid over, mark by the outcome of the binding, illegal paths left alone |
| CertPush.Agent.WriteFiles | cmd/agent/main.go:781-820 | exactly the files that decrypt and can be written arrive |
| CertPush.InResponseExactly | internal/server/handlers_nodes.go:320-419 | a bound bundle is in the response if and only if it could be loaded, resolved and encrypted and its hash is unreported or forced; its flag is dropped exactly then |
| CertPush.UpdatesAreFaithful | internal/server/handlers_nodes.go:379-406 | every update carries hash, password and files of its own bundle to a target it is bound to |
| CertPush.HashIsOfCarriedFiles | internal/server/handlers_nodes.go:379-406 | with encryption succeeding, the announced hash is the hash of what the agent decrypts |
| CertDelivery.RefreshedBundleIsAnnouncedTruthfully | internal/server/handlers_nodes.go:332-406 | a bundle refreshed among any number of other heartbeats is announced with the hash of the files it carries |
| CertPush.WrongKeyReadsNothing | cmd/agent/main.go:730-788 | an agent with another password or fingerprint decrypts none of the files |
| CertPush.EveryBindingIsServed | internal/server/handlers_nodes.go:331-406 | binding by binding: the updates are, in order and one each, those of the bindings whose bundle can be pushed and is unreported, or forced and not sent for an earlier binding |
| CertPush.UpdateForSays | internal/server/handlers_nodes.go:379-406 | an update in terms of its bundle and binding: name, target, password, hash and the encrypted files |
| CertPush.ReportedExactly | cmd/agent/main.go:1128-1247 | what a heartbeat reports is exactly the lines of the directories that are walked, each its mark or the hash of its certificate files |
| CertPush.CertFileExactly | cmd/agent/main.go:1087-1093 | a file counts as a certificate file exactly by its last four characters, in any case |
| CertPush.UpdateTouchesOnly | cmd/agent/main.go:722-945 | an update changes its own directory only, and there no file it does not bring |
| CertPushRuns.ForceSurvivesUntilSent | internal/server/handlers_nodes.go:360-417 | over every run a force flag is still set or the bundle has been in a response |
| CertPushRuns.ForcedIsSent | internal/server/handlers_nodes.go:360-417 | a forced bundle that can be pushed is in the response although reported, and the flag is then gone |
| CertPushRuns.MarksAfter | cmd/agent/main.go:722-945 | directories without an update are unchanged; the others end with the mark of one of their updates |
| CertPushRuns.FailedBindingIsRetried | cmd/agent/main.go:898-927 | after a failed binding the bundle is in the next response exactly if no other directory reports its hash |
| CertPushRuns.LostResponseIsRepeated | internal/server/handlers_nodes.go:320-419 | a lost response is repeated exactly if the hash is unreported; a bundle sent only because of its flag is not |
| CertPushRuns.SentinelIsNeeded | cmd/agent/main.go:916-927 | without the sentinel a directory holding the files would report the bundle as deployed; with it, it does not |
| CertPushRuns.MarkHidesUnwrittenFiles | cmd/agent/main.go:898-909 | an example: with every file unwritten and the binding successful the directory reports the bundle |
| CertPushRuns.MarkIsTruthfulExactly | cmd/agent/main.go:776-909 | the marked directory holds every file of the update exactly if each file that failed was there already |
| CertPushRuns.FilesAfterExactly | cmd/agent/main.go:781-820 | the same for any key: each file must decrypt, and be written or be there already |
| CertPushRuns.SuccessQuiesces | internal/server/handlers_nodes.go:320-419 | one fully successful heartbeat leaves every bound bundle reported, unless it overwrites the only directory vouching for it |
| CertPushRuns.QuietForever | internal/server/handlers_nodes.go:320-419 | from then on any number of heartbeats change nothing on either side |
| CertPushRuns.OneSuccessThenSilence | internal/server/handlers_nodes.go:320-419 | one fully successful heartbeat, then no certificate is sent through any number of heartbeats |
| CertPushRuns.UnseenTargetNeverQuiesces | cmd/agent/main.go:1141-1180 | a bundle whose hash no scanned directory reports is in every response |
| CertPushRuns.UnscannedSendsAll | internal/server/handlers_nodes.go:331-356 | a heartbeat without a report of hashes is answered with every bound bundle that can be pushed |
| CertPushRuns.SentIsReadable | internal/server/handlers_nodes.go:379-406 | every file sent opens with the key of the node and is the file of the bundle |
| Bundles.ComputeBundleHash | internal/store/store.go:428-441 | the hash depends on the set of files alone, whatever order the names are met in |
| Bundles.HashIgnoresBoundaries | internal/store/store.go:428-441 | the hash does not see where one file ends and the next begins |
| Bundles.GeneratePfx | internal/crypto/pkcs12.go:32-84 | a container is generated exactly from a certificate and a key, and opens with its password only, showing that chain |
| Bundles.CertsOfConcat | internal/crypto/pkcs12.go:171-190 | the certificates of two files laid end to end are those of both in order |
| Bundles.KeyAfterText | internal/crypto/pkcs12.go:39-66 | a key file is one whose first PEM block is a key, whatever text stands before it |
| Names.SortedNames | internal/store/store.go:430-434 | the sorted listing of any set of names |
| Names.SortedListingIsUnique | internal/store/store.go:430-434 | a set of names has one sorted listing, so the hash is well defined |
| Names.LessExactly | internal/store/store.go:430-434 | the order of names is that of the first character that differs, or of length |
| BundleStore.Store.SaveCertBundle | internal/store/store.go:348-422 | the whole directory after a save: files laid over, own entries from the bundle, all others kept, password sealed; other bundles untouched |
| BundleStore.Store.LoadCertBundle | internal/store/store.go:273-316 | the bundle read, and the metadata healed when its hash was stale and the write succeeds |
| BundleStore.Store.MigratePasswords | internal/store/pfxmigrate.go:25-84 | one pass turns every plain password into a sealed one and counts exactly the directories changed |
| BundleStore.Store.UpdateCertMeta | internal/acme/acme.go:1230-1347 | the directory after a renewal: containers with the resolved password or untouched, hash and date of issue |
| BundleStore.Store.SetPassword | internal/server/handlers_certs.go:840-889 | the new password is the one resolved afterwards, the containers are regenerated with it, entries of others and other bundles stay |
| BundleStore.SharedBundle | internal/acme/acme.go:226-232 | two names lead to one bundle directory exactly when they are equal up to one prefix, so normalising twice changes nothing |
| BundleStore.ValidNameExactly | internal/store/store.go:465-470 | a bundle name is accepted exactly if it is not empty and has no slash, or is a lone slash |
| BundleStore.ResolvesTo | internal/store/store.go:1875-1891 | the resolved password is the sealed one, else the plain one, else "ddns"; a sealed one that does not open is an error |
| BundleStore.MigrationTouchesOnly | internal/store/pfxmigrate.go:25-84 | the migration changes the two password entries of directories with a plain password, and nothing else |
| BundleStore.ContainersAre | internal/acme/acme.go:1269-1317 | a renewal writes the two containers from certificate and key and no other file; without both it writes none |
| BundleStore.RenewalPasswordIs | internal/acme/acme.go:1269-1301 | the password of a renewal is the one its bundle directory resolves to |
| BundleStore.RenewalTouchesOnly | internal/acme/acme.go:1316-1343 | a renewal changes the entries hash and issued and no other, in its own directory only |
| BundleStore.HealingTouchesOnly | internal/store/store.go:302-314 | a load corrects the entry hash and nothing else |
| BundleStore.ReadableExactly | internal/store/store.go:273-300 | a directory can be read exactly if it has metadata whose entries for the bundle are of their types |
| BundleHistory.EntriesPersist | internal/store/store.go:334-422 | over every sequence of saves, loads, rebuilds, migrations and renewals, entries the bundle does not own keep their value |
| BundleHistory.ManagedComeFromTheBundle | internal/store/store.go:334-422 | after a save the owned entries are exactly the bundle's, and the plain password is never on disk |
| BundleHistory.LoadAfterSave | internal/store/store.go:273-316 | loading what was saved gives that bundle with its files laid over the old ones |
| BundleHistory.StoredHashIsRight | internal/store/store.go:302-314 | after a load that could write the stored hash is that of the files on disk; after a save exactly if leftovers do not matter |
| BundleHistory.RenewedHashIsRight | internal/acme/acme.go:1316-1343 | after a renewal the stored hash covers the regenerated containers, and no other file has changed |
| BundleHistory.PasswordPersists | internal/store/store.go:1875-1909 | starting without two different passwords, no sequence of operations changes the resolved password |
| BundleHistory.PasswordIsTheLastSaved | internal/store/store.go:396-405 | once no password stands in plain, any sequence, saves of new bundles included, leaves the password of the last save that brought one |
| BundleHistory.SaveKeepsPasswordExactly | internal/store/store.go:396-405 | when a save keeps the resolved password: both directions |
| BundleHistory.MigrationKeepsPasswordExactly | internal/store/pfxmigrate.go:55-75 | the migration keeps the resolved password exactly when the plain one was blank or the same |
| BundleHistory.RebuildOpens | internal/server/cert_consistency.go:307-341 | containers written by a rebuild open with the password of the directory |
| BundleHistory.RenewalOpens | internal/acme/acme.go:1269-1317 | containers written by a renewal open with the password of the bundle directory |
| BundleHistory.NoRenewalWithoutPassword | internal/acme/acme.go:1297-1301 | a password that cannot be decrypted leaves the containers as they were |
| PfxCheck.Candidates | internal/server/cert_consistency.go:71-98 | fails exactly when the password cannot be resolved; otherwise holds exactly the four sources that are not blank |
| PfxCheck.FirstCandidate | internal/server/cert_consistency.go:71-98 | which source comes first |
| PfxCheck.DecodeWithCandidates | internal/server/cert_consistency.go:102-117 | the first candidate that opens the container, and how many were tried |
| PfxCheck.OpensAlike | internal/server/cert_consistency.go:102-117 | every candidate that opens a container shows the same certificates |
| PfxCheck.ConsistentExactly | internal/server/cert_consistency.go:133-181 | "consistent" exactly when key, leaf and both containers agree under some candidate |
| PfxCheck.NeedsRebuildExactly | internal/server/cert_consistency.go:133-181 | what calls for a rebuild: a missing container, disagreeing PEM files, or a container opening with another leaf; both directions |
| PfxCheck.NoRebuildWithoutPassword | internal/server/cert_consistency.go:307-320 | an unreadable password never leads to a rebuild, with the default or otherwise |
| PfxCheck.RebuiltPassword | internal/server/cert_consistency.go:307-341 | a rebuild uses the first candidate, and both containers open with it and show fullchain.pem |
| PfxCheck.RebuiltIsConsistent | internal/server/cert_consistency.go:307-341 | a rebuilt bundle passes the check for everyone who has its password among the candidates |
| PfxCheck.RebuildTouchesOnly | internal/server/cert_consistency.go:307-341 | a rebuild changes the two containers and cert.pem, which becomes the first certificate of fullchain.pem; every other file, target, expiry and domains are as before |
| PfxCheck.RebuildPossibleExactly | internal/server/cert_consistency.go:307-341 | a rebuild is possible exactly with a certificate in fullchain.pem, a key in privkey.pem and a readable password |
| PfxCheck.CandidatesInOrder | internal/server/cert_consistency.go:71-98 | the candidates stand in order of precedence without repetition |
| PfxReconcile.VerdictAlike | internal/server/cert_consistency.go:133-181 | whatever passwords the metadata offered at first, stale and fresh copies give the verdict on the disk as it is |
| PfxReconcile.SettledComesFirst | internal/server/cert_consistency.go:71-98 | every bundle and metadata in play, from before or after a rebuild, has the same first candidate |
| PfxReconcile.RebuildBundlePfx | internal/server/cert_consistency.go:307-341 | the rebuilt bundle is returned under its own hash and saved; in it and on disk only the containers and cert.pem differ; without one nothing is written |
| PfxReconcile.EnsureBundlePfxFresh | internal/server/cert_consistency.go:349-392 | alone, it returns the files on disk under their own hash, touches nothing that is not from ACME and otherwise only the containers and cert.pem, and leaves a rebuild due only if none is possible |
| PfxReconcile.SettledIsTheOnlyOne | internal/server/cert_consistency.go:321-341 | metadata that held one password holds it after a rebuild |
| PfxReconcile.RebuildsAreSerialised | internal/server/server.go:283-296 | at most one heartbeat is between lock and unlock |
| PfxReconcile.RebuildLeavesConsistentBundle | internal/server/cert_consistency.go:370-391 | in every interleaving a successful rebuild leaves a bundle that reloads as consistent, is what the heartbeat returns, and differs from the one before in the containers and cert.pem only |
| PfxReconcile.RebuildsAreBounded | internal/server/cert_consistency.go:349-392 | in every interleaving successful rebuilds never exceed outside writes plus one |
| PfxReconcile.UnreadableIsNeverRebuilt | internal/server/cert_consistency.go:307-320 | in every interleaving a bundle whose password cannot be read is never rebuilt |
| PfxReconcile.ReturnedHashIsItsOwn | internal/server/cert_consistency.go:349-392 | in every interleaving the bundle a heartbeat goes on with carries the hash of its own files |
| PfxReconcile.UndisturbedHeartbeat | internal/server/cert_consistency.go:349-392 | from every reachable state with the lock free, an undisturbed heartbeat rebuilds an ACME bundle exactly if the files call for it and chain, key and password allow it; then it is consistent, otherwise untouched |
| PfxReconcile.OthersAreNeverRebuilt | internal/server/cert_consistency.go:349-360 | in every interleaving a bundle that is not from ACME is never rebuilt |
| PfxReconcile.LoadCorrectsHash | internal/store/store.go:302-314 | loading a bundle leaves its own hash in the metadata if that can be written, and nothing else changed |
| NodeStore.Store.LoadToCache | internal/store/store.go:97-114 | fresh records that encode exactly the file; a broken file changes nothing |
| NodeStore.Store.LoadNodes | internal/store/store.go:116-148 | the map handed out holds the cached records themselves |
| NodeStore.Store.GetNode | internal/store/store.go:172-182 | the record returned is the cached one |
| NodeStore.Store.PutNode | internal/store/store.go:197-233 | a known node takes over the seven fields only, an unknown one is stored; on success the file encodes exactly the cache |
| NodeStore.Store.DeleteNode | internal/store/store.go:193-233 | exactly that node goes; an unknown one is an error that writes nothing |
| NodeStore.Store.Restart | internal/store/store.go:97-114 | after a successful write a restart loses nothing |
| NodeStore.Store.EditAndPut | internal/store/store.go:197-233 | a cached record edited in place and put back is persisted whole |
| NodeStore.Store.Approve | internal/server/handlers_nodes.go:455-493 | the approved record is in the file with every field given, also on the first access after a start |
| NodeStore.Store.ForcePush | internal/server/handlers_certs.go:892-911 | the flag reaches the file although it is none of the seven fields, also on the first access after a start |
| NodeStore.Store.ForcePushOnCopy | internal/store/store.go:216-229 | the same edit on a copy of the record is lost |
| NodeStore.HeartbeatsAndEditsDoNotCollide | internal/store/store.go:216-229 | in any interleaving a known node ends with the last heartbeat's seven fields and the last edit's others |
| NodeStore.OthersUntouched | internal/store/store.go:197-233 | operations on other nodes leave a record alone |
| DnsKeyStore.KeyStore.LoadToCache | internal/store/store.go:675-710 | the keys read, and the migration of a plain file as far as its writes succeed |
| DnsKeyStore.KeyStore.HandleSaveKey | internal/server/handlers_admin.go:143-189 | rejected exactly without provider; otherwise the edited map is saved, starting from nothing if it cannot be read |
| DnsKeyStore.KeyStore.DeleteKey | internal/store/store.go:845-875 | exactly that key goes, the rest is written in plain form |
| DnsKeyStore.KeyStore.TrackUsage | internal/store/store.go:879-910 | the node is added once, nothing is written if it was there |
| DnsKeyStore.KeyStore.RemoveUser | internal/store/store.go:913-944 | the first occurrence of the node leaves every list, nothing is written if there was none |
| DnsKeyStore.StepRefines | internal/store/store.go:639-944 | every operation acts on one abstract map, for either form of the file and any outcome of a migration |
| DnsKeyStore.RunRefines | internal/store/store.go:639-944 | over every sequence of operations and restarts the keys read are those of that map |
| DnsKeyStore.FormIsUnobservable | internal/store/store.go:675-710 | plain and sealed file with the same keys stay indistinguishable through every sequence of operations |
| DnsKeyStore.PlainAfterStepExactly | internal/store/store.go:675-944 | the key file is plain after an operation exactly if that wrote it so, or it was plain and was not sealed |
| DnsKeyStore.PlainAfterRunExactly | internal/store/store.go:675-944 | over every sequence of operations: plain exactly if some effective deletion, tracking or removal (or the start) left it so and no save or completed migration followed |
| DnsKeyStore.SentinelKeyIsUnreadable | internal/store/store.go:650-661 | a plain file is readable exactly if no key has the reserved name |
| DnsKeyStore.MigrationCopiesFirst | internal/store/store.go:680-704 | a plain file is replaced only after a copy of it was written |
| DnsKeyStore.UnreadableFile | internal/store/store.go:639-727 | a file that cannot be decrypted is changed by a save only, which replaces it |
| DnsKeyStore.RemovalIsComplete | internal/store/store.go:879-944 | no list ever repeats a node, so removing first occurrences removes the node |
| DnsKeyStore.LastCredentialsStay | internal/server/handlers_admin.go:158-189 | over every sequence of operations a key that is not deleted has the last id and secret that were not blank |
| DnsKeyStore.SaveDecides | internal/server/handlers_admin.go:158-189 | a save decides provider and time, leaves the users of the key and every other key |
| DnsKeyStore.UsersExactly | internal/store/store.go:879-944 | over every sequence of operations the users of a key are exactly the nodes tracked since their last removal |
| DnsKeyStore.RemovalKeepsOrder | internal/store/store.go:913-944 | a removal takes out the first occurrence and keeps the rest in order |
| StorageKey.StoreDir.NeedsStorageKey | internal/store/store.go:1750-1792 | true exactly if one of the three kinds of ciphertext is present |
| StorageKey.StoreDir.VerifyExisting | internal/store/store.go:1685-1735 | true exactly if all three kinds open with the key |
| StorageKey.StoreDir.SaveAccounts | internal/store/store.go:1407-1432 | every non-empty text is sealed |
| StorageKey.StoreDir.MigrateAccounts | internal/store/store.go:1797-1828 | runs exactly when an account key is plain, and then seals all |
| StorageKey.StoreDir.NewStore | internal/store/store.go:51-72 | the whole disk and the key after a start or a refusal |
| StorageKey.StartSucceedsExactly | internal/store/store.go:51-72 | a start succeeds exactly with a key that opens everything, or without one when nothing needs it |
| StorageKey.RefusalOverwritesNothing | internal/store/store.go:1653-1679 | a refusal overwrites no file |
| StorageKey.StartMeansReadable | internal/store/store.go:1685-1735 | after a success everything opens under the loaded key |
| StorageKey.AccountsRoundTrip | internal/store/store.go:1407-1466 | accounts saved are read back as they were |
| StorageKey.MigrationKeepsAccountsExactly | internal/store/store.go:1797-1828 | the migration preserves the accounts exactly if it does not run or nothing was sealed already |
| StorageKey.EabKeyIsNotGuarded | internal/store/store.go:1685-1792 | an example: a lost key that sealed only an EAB key goes unnoticed |
| StorageKey.OtherKeyStartsExactly | internal/store/store.go:51-72 | when a directory readable under one key starts under another: both directions |
| StorageKey.EabKeysLostExactly | internal/store/store.go:1685-1828 | such a start loses accounts exactly if an EAB key is sealed; what is read then |
| StorageKey.EabKeysOverALife | internal/store/store.go:1407-1466 | over every later life, saved accounts are read back exactly under the key they were saved with |
| StorageKey.RunningMeansReadable | internal/store/store.go:1685-1735 | over every life of the directory, with the key kept, lost or swapped between runs, a running manager can read all it has |
| StorageKey.RestartWithKeptKey | internal/store/store.go:51-72 | with the key kept, a restart succeeds with the same key |
| StorageKey.OnlyItsKeyOpens | internal/store/store.go:1685-1735 | ciphertext under one key makes every other key refused |
| StorageKey.OutageChangesNothing | internal/store/store.go:1653-1679 | whatever is tried without the right key, every start is refused and no data file changes |
| StorageKey.KeyRestored | internal/store/store.go:51-72 | with the right key back the manager starts and all data is there |
| StorageKey.FirstStart | internal/store/store.go:1653-1679 | with nothing sealed the first start runs under the new key and stores it |
| StorageKey.StopAndLaunch | internal/store/store.go:51-72 | after any life, stopping and starting again runs under the same key |
| StorageKey.CallsAct | internal/store/store.go:639-944 | each DNS-key call of a running manager acts on the one map its files stand for |
| StorageKey.KeylessStartExactly | internal/store/store.go:1653-1679 | without a key file a start is refused exactly if the DNS file is sealed or no JSON, a bundle has the entry of a sealed password, or an account key is neither blank nor PEM |
| StorageKey.StartWithKeyExactly | internal/store/store.go:1685-1735 | with a key file a start succeeds exactly if that key opens every DNS file, PFX password and account key that is sealed |
| StorageKey.StartSealsExactly | internal/store/store.go:1797-1828 | a start leaves the accounts alone, or, where an account key stood in PEM, seals every text that is not blank |
| StorageKey.PasswordOverALife | internal/store/store.go:1875-1909 | a PFX password saved once is read back by whatever manager runs later, until the metadata is saved again or dropped |
| CertRenewal.LockTable.LockOf | internal/acme/acme.go:249-262 | each directory keeps one lock of its own |
| CertRenewal.Classify | internal/acme/acme.go:1048-1096 | which outcome counts as success, skip or not replaced: both directions |
| CertRenewal.NeverTwiceAtOnce | internal/acme/acme.go:1003-1100 | in every interleaving acme.sh runs at most once at a time on one directory, forced renewals included |
| CertRenewal.OneReplacementPerDueDate | internal/acme/acme.go:1003-1100 | in every interleaving, of two successive replacements the first had come due when the second was decided, unless that was forced or could not read at its second look |
| CertRenewal.SecondLookDecides | internal/acme/acme.go:1008-1017 | in every reachable state a renewal goes on exactly if forced, unreadable or due; otherwise it leaves the certificate and frees the lock |
| CertRenewal.UnreadableRecheckProceeds | internal/acme/acme.go:1011-1046 | a run with two ordinary renewals, the second replacing a certificate that is not due because it cannot read it |
| CertRenewal.FirstLookDecides | internal/acme/acme.go:984-1008 | a renewal waits for the lock exactly if forced or the certificate has at most thirty days left |
| CertRenewal.ReplacedExactly | internal/acme/acme.go:1018-1100 | in every reachable state a certificate changes exactly when a run for its directory returns with a new one |
| CertRenewal.FreedExactly | internal/acme/acme.go:1003-1100 | in every reachable state a lock is given back exactly by its holder in one of three ways, and whoever is done holds none |
| CertRenewal.LooksArePast | internal/acme/acme.go:1003-1017 | in every run each look at a certificate lies between start and now |
| AcmeHome.AdoptedExactlyWhen | internal/acme/acmehome.go:257-343 | which candidates are adopted: both directions |
| AcmeHome.FatalIsExplicit | internal/acme/acmehome.go:257-343 | only an explicit setting that fails a check stops the search |
| AcmeHome.ResolveAcmeHome | internal/acme/acmehome.go:348-392 | home, trace and caveats of the whole resolution |
| AcmeHome.FirstAcceptable | internal/acme/acmehome.go:374-392 | the home is the first acceptable candidate with only skipped ones before it: both directions |
| AcmeHome.NoHomeExactlyWhen | internal/acme/acmehome.go:374-392 | no home exactly when an explicit candidate was refused or all were skipped |
| AcmeHome.PriorityOrder | internal/acme/acmehome.go:348-378 | the environment setting decides if usable or refused, then the directory of acme.sh, then the default below HOME |
| AcmeHome.AdoptedHomeIsSafe | internal/acme/acmehome.go:110-228 | what every adopted home has passed |
| AcmeHome.HasCertsChangesExactly | internal/acme/acmehome.go:276-306 | certificates on the host change the result exactly when it was still to be initialised; failure stays failure |
| AcmeHome.CaveatsDecideNothing | internal/acme/acmehome.go:383-386 | what the caveats look at does not influence the choice |
| AcmeHome.RefusedExactlyWhen | internal/acme/acmehome.go:257-343 | the explicit setting is refused exactly if absolute and badly placed, or a directory that is empty and unhealthy, or one that is not empty and fails a check: from the checks alone |
| AcmeHome.ChecksLookAt | internal/acme/acmehome.go:93-250 | each check in terms of owners, permissions, links and files |
| AcmeHome.PublicExactly | internal/acme/acmehome.go:110-165 | a place is public exactly if it is below one of the listed directories |
| AcmeHome.ExplicitDecides | internal/acme/acmehome.go:348-378 | the explicit setting, if adopted or refused, decides whatever the other candidates are |
| AcmeHome.RefusalStopsTheSearch | internal/acme/acmehome.go:374-378 | if the explicit setting is refused there is no home, whatever the other candidates are |
| AcmeHome.CaveatExactly | internal/acme/acmehome.go:167-187 | the caveat is the first directory above the home that others may write to |
| AcmeHome.JudgementsExactly | internal/acme/acmehome.go:348-392 | every candidate up to the one that decides is explained, in order, and no later one |
| AcmeHome.NotesExactly | internal/acme/acmehome.go:348-392 | the notes around the judgements: settings that lead to no candidate, and in the end the refusal or the caveat |
| AcmeEnv.DedupEnv | internal/acme/acmehome.go:424-442 | the two passes keep exactly the entries no later one overrides, in order |
| AcmeEnv.DedupMembers | internal/acme/acmehome.go:424-442 | an entry is kept exactly if it is the last of its key |
| AcmeEnv.DedupIsUnique | internal/acme/acmehome.go:424-442 | no key is left twice |
| AcmeEnv.DedupKeepsEffective | internal/acme/acmehome.go:424-442 | no effective setting changes |
| AcmeEnv.ChosenHomeIsEffective | internal/acme/acmehome.go:402-422 | acme.sh works in the chosen home whatever the environment and credentials say |
| AcmeEnv.CredentialsAreEffective | internal/acme/acmehome.go:410-419 | of the credentials given under one name the last one reaches acme.sh |
| AcmeEnv.OtherSettingsStay | internal/acme/acmehome.go:402-422 | every setting not given anew keeps its effective value; a blank HOME becomes the directory above the home |
| AcmeEnv.DedupOfConcat | internal/acme/acmehome.go:424-442 | what is kept of two lists laid end to end: the second as on its own, before it the entries of the first that are not overridden, in order |
| EventLog.Logger.Reload | internal/logger/logger.go:105-178 | the ring after a start, slot by slot and index |
| EventLog.Logger.Open | internal/logger/logger.go:63-178 | after any start the ring holds the lines read in slots from 0; the log then refines its file exactly if they fit or fill whole laps |
| EventLog.Logger.LogEvent | internal/logger/logger.go:420-465 | ring and file both take the event |
| EventLog.Logger.QueryByTime | internal/logger/logger.go:628-719 | the same newest-first page of the unbounded log, from ring or disk |
| EventLog.Logger.CountByTime | internal/logger/logger.go:723-791 | the number of matching events of the unbounded log |
| EventLog.Logger.QueryFiltered | internal/logger/logger.go:472-527 | the newest-first page of what the ring holds |
| EventLog.Logger.SourceSuffices | internal/logger/logger.go:639-683 | with a lower bound, the source chosen selects what the file would |
| EventLog.Logger.WithoutLowerBoundExactly | internal/logger/logger.go:657-683 | without a lower bound the answer is that of the whole log exactly if the query goes to disk or nothing outside the ring matches |
| EventLog.TailSuffices | internal/logger/logger.go:639-661 | events before the oldest one in the ring cannot match when the bound is not earlier |
| EventLog.ReloadIsOrderedIff | internal/logger/logger.go:162-174 | the reloaded ring is in order exactly if the lines read fit or fill it a whole number of times |
| EventLog.PagesCoverTheLog | internal/logger/logger.go:711-719 | consecutive pages are together the whole answer: the events matching each filter that is set, duplicate free, newest first, as many as the count says |
| EventLog.NewestFirst | internal/logger/logger.go:704-708 | the in-place reversal |
| EventLog.PageIs | internal/logger/logger.go:711-719 | a page is the stretch from the offset on: 50 events without a limit, at most 5000, fewer only at the end |
| Ring.WriteHolds | internal/logger/logger.go:422-425 | writing the next entry keeps the newest ones |
| LogBuffer.Buffer.WriteRaw | cmd/agent/dns_updater.go:452-458 | the written sequence grows by the line |
| LogBuffer.Buffer.Drain | cmd/agent/dns_updater.go:480-498 | returns what is left in order and empties the buffer, the cursor stays |
| LogBuffer.Buffer.Clear | cmd/agent/dns_updater.go:460-466 | empties the buffer, the cursor stays |
| LogBuffer.Buffer.RecentLines | cmd/agent/dns_updater.go:500-522 | the last n surviving lines |
| LogBuffer.Buffer.PeekLines | cmd/agent/dns_updater.go:524-554 | the oldest surviving lines since the commit |
| LogBuffer.Buffer.Commit | cmd/agent/dns_updater.go:556-560 | the cursor moves to the end of what was written |
| LogBuffer.SendFailed | cmd/agent/main.go:508-527 | putting drained lines back restores the contents |
| LogBuffer.PeekRepeats | cmd/agent/dns_updater.go:524-554 | an uncommitted peek repeats until its first line is overwritten |
| LogBuffer.CommittedLinesNeverReturn | cmd/agent/dns_updater.go:524-560 | nothing written before a commit is shown after it |
| LogBuffer.PeekIsComplete | cmd/agent/dns_updater.go:524-560 | when one peek shows all that is unreported: both directions |
| LogBuffer.DrainHidesLines | cmd/agent/dns_updater.go:480-498 | when a peek after a drain shows anything, however much was written: both directions |
| LogBuffer.RecentAreNewest | cmd/agent/dns_updater.go:500-522 | the recent lines are the newest in the order of writing, as many as asked for, written and not overwritten |
| RateLimiter.Limiter.Allow | internal/server/middleware.go:70-94 | the answer and the level of every client after a call |
| RateLimiter.Limiter.CleanupStale | internal/server/middleware.go:58-68 | only buckets unused for ten minutes go |
| RateLimiter.EvictionIsInvisible | internal/server/middleware.go:58-94 | over every run a limiter that evicts answers as one that never does |
| RateLimiter.AllowedInInterval | internal/server/middleware.go:70-94 | after any history, T seconds allow one client at most capacity times (1 + T/60) calls |
| RateLimiter.StaleIsFull | internal/server/middleware.go:58-68 | ten minutes fill every bucket |
| RateLimiter.CleanupLeavesRecent | internal/server/middleware.go:58-68 | over every run a clean-up leaves exactly the buckets used in the last ten minutes |
| RateLimiter.AdmittedExactly | internal/server/middleware.go:70-94 | after any history a call is admitted exactly if it keeps, with those admitted before, to the bound of every interval that begins at an earlier event: the limiter refuses no more than it must |
| AccessStats.Collector.Record | internal/server/access_stats.go:121-139 | the buckets after a request keep counting the log |
| AccessStats.Collector.Flush | internal/server/access_stats.go:97-119 | pruning and writing keep every minute that can be shown |
| AccessStats.Collector.Restart | internal/server/access_stats.go:63-86 | what was flushed counts on |
| AccessStats.Collector.TakeSnapshot | internal/server/access_stats.go:141-213 | series and per-client totals of a window are those of the requests in it and add up; the clients shown are the busiest |
| AccessStats.TopClients | internal/server/access_stats.go:186-199 | at most five clients in descending order, and nobody left out is busier than anybody shown |
| AccessStats.RecordKeepsOk | internal/server/access_stats.go:121-139 | every bucket goes on counting its minute, in total and per client |
| AccessStats.PruneKeepsOk | internal/server/access_stats.go:97-119 | pruning never drops a minute young enough to be shown |
| AccessStats.TotalsAreSums | internal/server/access_stats.go:63-139 | after any sequence of requests, flushes and restarts each total is the number of requests and the sum of the clients, each client count is right, and no recent minute is missing |
| AccessStats.WindowSum | internal/server/access_stats.go:141-213 | the series of a window adds up to the requests made in it |
| AccessStats.OldMinutesGo | internal/server/access_stats.go:97-139 | over every run no two minutes kept lie more than 2890 apart, and none is older after a flush or a restart |

## Left out

- ConfigPush.Manager.SaveConfig: the checks of domains, addresses and commands in the request, the filling in of deploy paths and the stored bindings are not modelled; the request is taken as already valid in that respect.
- ConfigPush.Manager.Heartbeat: only the `dns_confs` form of a configuration; the older form picks a key by map order.
- ConfigPushRuns.SilenceMeansCurrent: assumes that disk writes of the agent succeed and that the manager is not stopped between saving a key and bumping the version; the lemma FailedHashWriteThenRevert shows what happens when a hash write fails.
- UpgradePush.AgentConfig.Heartbeat: that the manifest names a file for the platform and that the file exists is a parameter.
- SemVer.RebuildManifest: the naming pattern of binaries is a parameter of each file.
- CertPush.Agent.ApplyCertUpdates: the resolution of a target path to a directory or a rejection is a parameter; service reloads, error texts and failures of writing the mark itself are not modelled.
- CertPush.CollectCertHashes: the second name under which a directory below the certificate path is reported is not modelled, since matching is by value.
- Bundles.GeneratePfx: the two container formats differ in nothing that is modelled, and encoding a valid chain and key never fails.
- BundleStore.Store.SaveCertBundle: an uploaded file named meta.json, and conflict reports, are not modelled; no check that files lie inside the directory.
- BundleStore.ValidNameExactly: the names ".", ".." and "/" pass the check and name other directories; the model gives every accepted name a directory of its own.
- BundleStore.Store.UpdateCertMeta: which files are taken for certificate and key is a parameter.
- BundleHistory.PasswordPersists: a save of a bundle that was not loaded is excluded for the directory in question, because a password that stands only in plain can be lost by it; SaveKeepsPasswordExactly says when, and PasswordIsTheLastSaved covers all saves once no password stands in plain.
- PfxReconcile.RebuildsAreBounded: writes from outside happen while nobody holds the lock, and to PEM files only.
- DnsKeyStore.RunRefines: records are values; the sharing of key records between cache and handlers, visible only when a write fails, is not modelled.
- StorageKey.RunningMeansReadable: the key file changes only while the manager is stopped; re-reading it after a restored backup is not modelled.
- EventLog.Logger.QueryByTime: strictly increasing time stamps, as they come from one clock; files rotated away are not modelled.
- Consistency audits (signatures, log levels), DNS key choice for renewals, and the list handling of ACME accounts: they would add only easy members.
- Node status, logs and hardware in a heartbeat, notifications, tokens and login, backups: not part of this model.
- The ACME exchange, IIS and service control, cryptographic formats, HTTP, JSON and YAML text: external or plumbing.
