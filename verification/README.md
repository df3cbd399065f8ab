# Verified model of DeviceChain's hard parts

Dafny models of six parts of the repository whose comments and tests make promises
over every interleaving, every input or every run, with proofs of those promises. The
project is written for Dafny 4.11; `dafny verify dfyconfig.toml` checks all of it.

**The cluster lock** (`Claim*.dfy`). `ClaimTypes` holds the Lease, the API server's
compare-and-swap contract and the decisions a run takes on an answer. `ClaimProtocol`
is a step relation over one server and any number of runs, each with a main task and a
renewal loop. Requests and answers travel separately: a call may be carried out late,
after its caller gave up, or never; an answer may be lost; a run may die; outsiders may
touch or delete the Lease. A history is any finite sequence of steps. `ClaimInvariant`
proves the inductive invariant, `ClaimSafety` and `ClaimReclaim` what holds with no
assumption about time, `ClaimTiming` the bounds, and `ClaimTight` that they are reached.
`ClaimObject` is the `Claim` object with its fields, tied to
the protocol's renewal steps. Assumed: identities are not reused, reads are
linearizable, an outsider's edit keeps the holder, clocks run at one rate (they may
disagree by any amount). A reading the server gave before a steal may still be heard,
and believed, after it; what is proved is about the answers the server gives.

**Hot TLS reload** (`Broker*.dfy`). `BrokerTls` is the machine on values: what each
listener hands to the next handshake, under the broker's own reloads, reloads from
outside and hooks the server installs. `BrokerObjects` carries it out on shared mutable
objects (cells, options, server, broker), each method proved to act as the machine does.

**Removal of a destroyed instance's archive** (`Archive*.dfy`, with `Text`). The path
language (`ArchivePaths`), the decision (`ArchivePlan`), the removal over a store that may
refuse, spare keys or be written to meanwhile (`ArchiveRemoval`), and a destroy as steps
that may stop anywhere and be run again (`ArchiveDestroy`).

**Database placement** (`Placement`, with `StringOrder`). Parser, canonical form and the
readers of what was stored.

**The webhook message scanner** (`WebhookScan`), **the clip timeline** (`ClipTimeline` for
what a window keeps, `ClipShowing` for what that shows when it is played), **the URL
scrubber** (`UrlScrub`), **stall episodes** (`StallEpisodes`).

`Wrappers`, `Sequences` and `Text` hold what several models share.

## Where the code does less than its comments suggest

Each is kept as the code has it, with the condition under which the promise does hold.

- The overlap after a steal is at most two renewal intervals plus the larger of one
  interval and the time the call that took the claim may last (`OverlapIsBounded`), and for
  every such time of at least an interval some history reaches that bound
  (`OverlapIsTight`). So it is at most three intervals when that call is answered within
  one, and may be longer otherwise. Neither the Create nor the steal has a timeout of its
  own.
- A re-run of a destroy plans the same removal exactly when its reads succeed and, once the
  event store is gone, no re-run in between died while writing the record again
  (`RerunPlansTheSame`, with a history that does, `TornRewriteLosesThePlan`): the record is
  rewritten in place. A run that cannot tell what to remove finishes all the same, and so
  removes the record (`UnreadableRerunGivesUp`).
- A route the server dials presents the current certificate, except when its wrapper was
  made from a config without one and a swap brought one since
  (`RoutesPresentTheCurrentLeaf`).
- Every path that ends in a restore stamp is accepted for deletion as any instance's, by
  design of the code (`AcceptedExactly`).
- The scanner's skipping loop is exact for a marker exactly when the marker cannot overlap
  itself (`ScanIsExact`); both markers in use are of that kind.
- A clip lasts its window exactly when the stamps are a millisecond apart, and exceeds it
  by at most a millisecond an entry exactly when the window is not reversed
  (`TotalIsTheWindow`). It shows at each instant the entry meant for it exactly when no
  entry but the last is shorter than a millisecond (`InStepExactly`, `ShowsTheLatest`,
  `ShortGapExample`); in general it lags by at most a millisecond an entry
  (`ShowsNoOlder`). The comment in `clip_timeline` says that with nothing before the
  window the first frame stands in until the next arrives; the code does that only when
  no frame is inside the window either, and otherwise opens late (`LateFirstFrame`).
- A scrubbed query keeps exactly the harmless pairs unless one empty pair is all that is
  left of it (`KeepsExactlyTheHarmless`, `LoneEmptyPairIsDropped`).
- `inWindow` is interval intersection except for a reversed window inside the episode
  (`InWindowIsIntersection`).

## Model

| member | source | states |
|---|---|---|
| ClaimTypes.Serve | backend/cli/bootstrap/claim.go:426-428 | the server contract: a write that is applied gets a version never assigned before, any other answer leaves the Lease as it was |
| ClaimTypes.OneCreationWins | backend/cli/bootstrap/claim.go:195-199 | of two racing creations exactly the first is applied and makes its caller the holder |
| ClaimTypes.SecondWriterIsRefused | backend/cli/bootstrap/claim.go:423-428 | of two writes over one version read, renewal, steal or release, the second to arrive is refused, and the first is applied exactly while nobody wrote in between |
| ClaimTypes.ReadsWhatIsThere | backend/cli/bootstrap/claim.go:407 | a read answers with the Lease there is and changes nothing |
| ClaimTypes.ForeignDeleteIsRefused | backend/cli/bootstrap/claim.go:538-542 | a delete for another object's UID is refused |
| ClaimTypes.JudgeRead | backend/cli/bootstrap/claim.go:407-419 | which answer means mine, deleted, held by whom, or unreadable, each in both directions |
| ClaimTypes.Staleness | backend/cli/bootstrap/claim.go:439-447 | a loss exactly when more than a lease duration has passed since lastHeld, naming how long |
| ClaimProtocol.AnythingMayHappen | backend/cli/bootstrap/claim.go:294-312 | no run can count on a call being carried out, answered or heard in time, nor on the Lease being left alone |
| ClaimProtocol.OutsidersWrite | backend/cli/bootstrap/claim.go:294-299 | an outsider's deletion leaves no Lease, and its touch the same one under a new version |
| ClaimInvariant.InvAlways | backend/cli/bootstrap/claim.go:202-605 | in every state of every history, snapshots and requests on their way are true copies of some version of the Lease, and an identity has at most one chance to enter it |
| ClaimSafety.IdentityNeverReturns | backend/cli/bootstrap/claim.go:402-434 | over every history, an identity that has been replaced in the Lease, or whose Lease was deleted, never appears in it again |
| ClaimSafety.LateRequestsAreInert | backend/cli/bootstrap/claim.go:402-605 | a renewal, release or reclaim of a replaced holder, however late it is carried out, leaves the Lease exactly as it is |
| ClaimSafety.NoPositiveAnswerAfterLoss | backend/cli/bootstrap/claim.go:475-494 | a replaced holder that asks the API server is never again told the Lease is its own |
| ClaimSafety.NewHolderFencesOld | backend/cli/bootstrap/claim.go:475-494 | once another run has been told it holds the Lease, by a read or by its own Create, steal or renewal being applied, no earlier holder is told so again, by a read or a write |
| ClaimSafety.ReleaseDeletesOnlyItsOwn | backend/cli/bootstrap/claim.go:519-543 | in every history a delete that takes effect removes a Lease naming the run that released it |
| ClaimSafety.LostIsSticky | backend/cli/bootstrap/claim.go:449-455 | a fenced run stays fenced, for the reason first given, to the end of every history |
| ClaimReclaim.OldVersionMeansUntouched | backend/cli/bootstrap/claim.go:294-341 | an unchanged resourceVersion between two states means the Lease was the same object at every moment in between |
| ClaimReclaim.StealMeansUntouched | backend/cli/bootstrap/claim.go:568-605 | a steal that takes effect implies that nothing wrote to the Lease from the answer of the run's first read up to the steal, a span of at least a lease duration |
| ClaimReclaim.EveryStealWasWatched | backend/cli/bootstrap/claim.go:313-341 | every steal that takes effect has such a first read, answered at least a lease duration before |
| ClaimTiming.DatedAlways | backend/cli/bootstrap/claim.go:313-341 | in every history a steal on its way was preceded by a lease duration without a write of the version it carries |
| ClaimTiming.BoundedAlways | backend/cli/bootstrap/claim.go:371-447 | in every timely history, a run that still believes in its claim has heard of a success within a lease duration and an interval, and that success dates a write |
| ClaimTiming.LastWriteFrozen | backend/cli/bootstrap/claim.go:402-434 | the date of a replaced holder's last write never moves again |
| ClaimTiming.OverlapIsBounded | backend/cli/bootstrap/claim.go:371-447 | after a steal the old holder works unfenced for at most two intervals plus the larger of an interval and the bound on the call that took its claim, whatever the clocks' offsets and the answers |
| ClaimTiming.OverlapIsThreeIntervals | backend/cli/bootstrap/claim.go:371-447 | with every call answered within an interval the overlap is at most three intervals |
| ClaimTight.OverlapIsTight | backend/cli/bootstrap/claim.go:371-447 | for every bound of at least an interval on the call that takes a claim, a timely history in which the old holder works unfenced for exactly two intervals and that bound after the steal |
| ClaimTiming.LastHeldFreezes | backend/cli/bootstrap/claim.go:426-433 | after an identity leaves the Lease its run's lastHeld never moves, unless a success already given was still to be heard |
| ClaimTiming.LateRenewalFences | backend/cli/bootstrap/claim.go:402-447 | a renewal that ends more than a lease duration after lastHeld fences its run whatever was answered |
| ClaimObject.RenewalFences | backend/cli/bootstrap/claim.go:402-447 | when a renewal is fenced and for what reason, when it moves lastHeld and when it writes, each in both directions |
| ClaimObject.RenewalSends | backend/cli/bootstrap/claim.go:421-426 | what a renewal writes is the Lease read with renewTime the moment of sending, and every other field kept |
| ClaimObject.LoopStopsAtFirstLoss | backend/cli/bootstrap/claim.go:371-386 | the loop survives its ticks only with a recent success, and stops at the first renewal that reports a loss |
| ClaimObject.LoopTickByTick | backend/cli/bootstrap/claim.go:371-386 | each tick renews from where the one before left lastHeld, none but the last handled was fenced, and the loop's loss is that one's |
| ClaimObject.ReadStepAgrees | backend/cli/bootstrap/claim.go:402-428 | on the same read, the protocol's loop sends or decides exactly what the object's renewal does |
| ClaimObject.WriteStepAgrees | backend/cli/bootstrap/claim.go:426-447 | on the same answer to its Update, the protocol's loop ends as the object's renewal does |
| ClaimObject.CheckStepAgrees | backend/cli/bootstrap/claim.go:475-494 | in the protocol a check fences its run exactly for a deleted or foreign Lease, and a call that fails changes nothing |
| ClaimObject.ReleaseStepAgrees | backend/cli/bootstrap/claim.go:533-542 | in the protocol a release sends a delete exactly when it read the Lease as its own, for the UID and version read |
| ClaimObject.ReleaseGivesBack | backend/cli/bootstrap/claim.go:508-543 | a release nobody interferes with deletes the Lease |
| ClaimObject.HoldStepAgrees | backend/cli/bootstrap/claim.go:355-367 | a claim begins exactly when its Create or its steal is heard to be applied, held from then, its first tick ten seconds later |
| ClaimObject.WatchStep | backend/cli/bootstrap/claim.go:313-325 | a reclaim watches the Lease its first read found, and ends when there is none |
| ClaimObject.StealSends | backend/cli/bootstrap/claim.go:337-597 | a steal is sent exactly when the second read found the first version, and writes the thief as holder, its clock as renewTime, one more transition, and the UID and version read |
| ClaimObject.CreateSends | backend/cli/bootstrap/claim.go:206-225 | an acquisition creates a Lease in its own name, renewed by its own clock |
| ClaimObject.Claim.constructor | backend/cli/bootstrap/claim.go:355-367 | a new claim is not lost and was last held now |
| ClaimObject.Claim.SetLost | backend/cli/bootstrap/claim.go:449-455 | only the first loss is recorded |
| ClaimObject.Claim.CachedLoss | backend/cli/bootstrap/claim.go:496-500 | the recorded loss is reported |
| ClaimObject.Claim.StaleNow | backend/cli/bootstrap/claim.go:439-447 | lost exactly when more than a lease duration has passed since lastHeld |
| ClaimObject.Claim.RenewOnce | backend/cli/bootstrap/claim.go:402-434 | new state and result are those of RenewalOutcome; no loss means the claim is fresh |
| ClaimObject.Claim.RenewLoop | backend/cli/bootstrap/claim.go:371-386 | handles ticks up to the first loss and records that loss |
| ClaimObject.Claim.CheckHeld | backend/cli/bootstrap/claim.go:475-494 | a known loss is kept, a deleted or foreign Lease becomes one, a failed call changes nothing |
| ClaimObject.Claim.Release | backend/cli/bootstrap/claim.go:519-543 | sends a delete exactly when the Lease read names this run, with the UID and version read |
| BrokerTls.GoodAlways | backend/broker/dc-nats-server/broker.go:70-149 | in every view of every run, while the server runs our options its listeners serve what the cells and mqttTLS hold, and a foreign load shows in the load time |
| BrokerTls.HotRefinesFull | backend/broker/dc-nats-server/broker.go:119-149 | a successful reload, hot or full, serves applyDeviceTLS of the file on every listener with no stale hook; a failed one changes nothing; a swap serves what a full reload would |
| BrokerTls.EveryReloadServesItsFile | backend/broker/dc-nats-server/broker.go:119-149 | over every run from start, whatever outsiders did before, a successful reload serves its file |
| BrokerTls.SwapOnlyAfterOwnFullReload | backend/broker/dc-nats-server/broker.go:88-107 | between an outside reload or a hook on a live config and any later swap lies one of our own full reloads that succeeded |
| BrokerTls.AskingOnlyRaises | backend/broker/dc-nats-server/devicetls.go:47-64 | the MQTT listener always asks, a stronger setting is kept, nothing else of the config changes |
| BrokerTls.WantedExactly | backend/broker/dc-nats-server/devicetls.go:47-64 | the other listeners' TLS is the file's own, and the MQTT listener's differs from the file's only where that asked for nothing |
| BrokerTls.HotExactly | backend/broker/dc-nats-server/broker.go:99-138 | over every run, a reload skips the server if and only if the hot path is asked for, the digest is not empty and that of the file last handed over, neither file has TLS out of the wrappers' reach, every listener keeps its authorities and how it asks, the load time could be read then and now, and no outside reload or hook came since |
| BrokerTls.SwapsAreCounted | backend/broker/dc-nats-server/broker.go:133-148 | exactly the swaps are counted, and only a handover moves the load time and the digest |
| BrokerTls.OutsideReloadShows | backend/broker/dc-nats-server/broker.go:91-95 | a reload from outside serves its own configs, moves the load time and tells the broker nothing |
| BrokerTls.HookShows | backend/broker/dc-nats-server/broker.go:96-98 | a hook reaches the handshakes of a plain config, is bypassed on a wrapper, and shows in the broker's own configs |
| BrokerTls.OwnReloadsKeepAsking | backend/broker/dc-nats-server/broker.go:62-149 | over every run of start and own reloads the listeners serve the file in force, MQTT asks for a certificate, a requirement is never lowered, and mqttTLS is what is served |
| BrokerObjects.Cell.Wrap | backend/broker/dc-nats-server/hottls.go:58-75 | the wrapper reads this cell, for dialled routes too exactly when the config had a certificate, and the config it replaces becomes current |
| BrokerObjects.Options.ApplyDeviceTls | backend/broker/dc-nats-server/devicetls.go:47-64 | the MQTT config becomes AskDevices of the file's |
| BrokerObjects.Options.SetHook | backend/broker/dc-nats-server/hottls.go:115-126 | the server's hook is set on one listener's config and no other |
| BrokerObjects.HasUnwrappedListener | backend/broker/dc-nats-server/hottls.go:97-113 | true exactly when some listener or remote outside the wrappers has TLS, or OCSP is configured |
| BrokerObjects.HotTls.SwapIfKeyMaterialOnly | backend/broker/dc-nats-server/hottls.go:136-160 | swaps all three cells exactly when nothing but key material differs, otherwise none |
| BrokerObjects.WrapOptions | backend/broker/dc-nats-server/hottls.go:85-94 | each config is replaced by a wrapper over its own new cell, or nothing is touched |
| BrokerObjects.HandedOverServes | backend/broker/dc-nats-server/hottls.go:58-94 | prepared options serve applyDeviceTLS of their file, wrapped or plain |
| BrokerObjects.PrepareOptions | backend/broker/dc-nats-server/broker.go:62-66 | fresh options carry plain configs for applyDeviceTLS of the file |
| BrokerObjects.WrapPrepared | backend/broker/dc-nats-server/broker.go:139-142 | wrapped options serve their file, and the returned holder's cells are what they read |
| BrokerObjects.Broker.constructor | backend/broker/dc-nats-server/broker.go:62-77 | start on objects is Started on values |
| BrokerObjects.Broker.HotAllowed | backend/broker/dc-nats-server/broker.go:99-107 | allowed exactly when wrappers are live, the load time is known and unmoved, and no hook was added |
| BrokerObjects.Broker.MoveCells | backend/broker/dc-nats-server/hottls.go:136-160 | the cells move exactly when only key material differs, and the listeners with them while the server runs the wrappers |
| BrokerObjects.Broker.SwapKeys | backend/broker/dc-nats-server/broker.go:133-138 | a swap moves the listeners and the probe as the machine's Swap, and a refused one moves nothing |
| BrokerObjects.Broker.HandOver | backend/broker/dc-nats-server/broker.go:143-148 | accepted options become what is served, and the broker's fields follow them |
| BrokerObjects.Broker.TryHot | backend/broker/dc-nats-server/broker.go:130-138 | the server is skipped exactly when the machine takes its hot path |
| BrokerObjects.Broker.FullReload | backend/broker/dc-nats-server/broker.go:139-148 | a refused full reload leaves every listener's handshake config unchanged |
| BrokerObjects.Broker.ReloadFile | backend/broker/dc-nats-server/broker.go:125-148 | a readable file is served hot, in full, or not at all, as the machine says |
| BrokerObjects.Broker.ReloadWith | backend/broker/dc-nats-server/broker.go:119-149 | the reload on shared objects is the machine's Reload, for every file, every refusal, and every outcome of the load-time reads before and after it |
| BrokerObjects.Broker.OutsideReload | backend/broker/dc-nats-server/broker.go:91-95 | a reload from outside orphans the wrappers as the machine says |
| BrokerObjects.Broker.InstallHook | backend/broker/dc-nats-server/broker.go:96-98 | a hook on a live config shows in the broker's copy of the options; it reaches handshakes on a plain config and is bypassed on a wrapper |
| BrokerObjects.RoutesPresentTheCurrentLeaf | backend/broker/dc-nats-server/hottls.go:65-73 | the server presents on dialled routes the certificate its cluster listener serves, except exactly when the wrapper was made without one and a swap brought one |
| ArchivePaths.NameAndStampsUnique | backend/cli/bootstrap/destroy_archive.go:124-147 | a lower-case name followed by restore stamps can be read in one way only |
| ArchivePaths.OwnershipIsUnambiguous | backend/cli/bootstrap/destroy_archive.go:133-147 | instance a's pattern matches b's current-form path, with any number of stamps, if and only if a is b or b followed by "-" and the UID half |
| ArchivePaths.StampExactly | backend/cli/bootstrap/destroy_archive.go:124-131 | a restore stamp is -restored-, eight digits, T, six digits and Z, in both directions |
| ArchivePaths.StampsExactly | backend/cli/bootstrap/destroy_archive.go:144-147 | restore stamps are any number of them, one after another |
| ArchivePaths.UidHalfExactly | backend/cli/bootstrap/destroy_archive.go:138-146 | a UID half is a dash and eight characters of 0-9 and a-f |
| ArchivePaths.NamedForExactly | backend/cli/bootstrap/destroy_archive.go:133-147 | a path is an instance's own if and only if it is dc-tsdb-, the name, a UID half or none, and stamps |
| ArchivePaths.FreshPathIsOwn | backend/cli/bootstrap/restore.go:369-375 | the path of a fresh event store, with a UID half or without, is recognised as its instance's |
| ArchivePaths.RestoredPathIsOwn | backend/cli/bootstrap/restore.go:200-202 | a restore of any recognised path is recognised, generation after generation |
| ArchivePaths.RestoredPathIsAccepted | backend/cli/bootstrap/destroy_archive.go:127-131 | a restore's path is accepted as the restored instance's, whatever it was restored from |
| ArchivePaths.AcceptedExactly | backend/cli/bootstrap/destroy_archive.go:155-170 | which current-form paths are accepted for deletion as a's, in both directions |
| ArchivePaths.Judge | backend/cli/bootstrap/destroy_archive.go:155-170 | a path is accepted exactly when it is one segment and named for the instance or ends in a restore stamp; the refusals are told apart |
| ArchivePlan.InClusterExactly | backend/cli/bootstrap/destroy_archive.go:268-298 | an endpoint is taken for a Service and port exactly when it is an http(s) URL whose host is one of the three in-cluster names of that Service in the infrastructure namespace and whose port can be read or is the scheme's |
| ArchivePlan.ReadsBareBucket | backend/cli/bootstrap/destroy_archive.go:335-358 | a destination is read as a bucket exactly when it is that bucket, bare, with or without the closing slash |
| ArchivePlan.ReadFile | backend/cli/bootstrap/destroy_archive.go:405-425 | an absent file is no record, a complete one of this instance is what it holds, and anything else is an error, in both directions |
| ArchivePlan.RemoveIsSafe | backend/cli/bootstrap/destroy_archive.go:174-263 | every Remove plan from any facts: readable record with in-cluster backups, no keep flag, an accepted single segment plus "/", bucket and endpoint of the record, a Service in the infrastructure namespace |
| ArchivePlan.RemovesExactly | backend/cli/bootstrap/destroy_archive.go:216-262 | a removal is planned if and only if it may be, its source is the live event store or, that gone, the record, the path is accepted, the install record agrees and the endpoint is in the namespace |
| ArchivePlan.DecidesOtherwise | backend/cli/bootstrap/destroy_archive.go:189-214 | exactly when backups are kept, absent or the operator's own, and that an unreadable install record is unknown |
| ArchivePlan.SaysWhy | backend/cli/bootstrap/destroy_archive.go:216-244 | each reason for not knowing the archive is given exactly when it applies |
| ArchivePlan.SegmentsAreDisjoint | backend/cli/bootstrap/destroy_archive.go:74-77 | no key is under two different single-segment paths |
| ArchivePlan.RemoveSparesOtherPaths | backend/cli/bootstrap/destroy_archive.go:74-77 | no key of another path, one that extends this one by name included, is under a Remove plan's prefix |
| ArchivePlan.RecordReadsBack | backend/cli/bootstrap/destroy_archive.go:386-425 | a recorded plan reads back exactly when it names a bucket and an endpoint, and then plans the same removal with the event store gone |
| ArchiveRemoval.SettleIsContained | backend/cli/bootstrap/destroy_archive.go:475-560 | nothing left means the prefix is empty; only objects under the prefix ever disappear, and only with event store and namespace gone |
| ArchiveRemoval.SettleRemoves | backend/cli/bootstrap/destroy_archive.go:475-560 | over a store that keeps its word, settling a removal leaves something if and only if event store or namespace was not seen gone or a call it needed failed, and otherwise nothing under the prefix |
| ArchiveRemoval.SettleOverAnyStore | backend/cli/bootstrap/destroy_archive.go:514-560 | over any store and with other writers, exactly which objects are there afterwards, and that something is reported left exactly when a call failed or the prefix is not empty |
| ArchiveRemoval.OtherPlansTouchNothing | backend/cli/bootstrap/destroy_archive.go:477-486 | the other plans touch nothing, and exactly an unknown one reports the archive left |
| ArchiveRemoval.OthersUntouched | backend/cli/bootstrap/destroy_archive.go:475-560 | every object outside the prefix is exactly as it was |
| ArchiveRemoval.HonestStoreIsEmptied | backend/cli/bootstrap/destroy_archive.go:431-439 | over a store that reports every key it fails to delete, a removal leaves something and says so exactly when a call it needed failed |
| ArchiveRemoval.ArchiveStore.List | backend/cli/bootstrap/destroy_archive.go:433-434 | lists exactly the objects under the prefix |
| ArchiveRemoval.ArchiveStore.Delete | backend/cli/bootstrap/destroy_archive.go:437-438 | removes the keys asked for except those the store spares; a store that reports what it spares and reports success has removed them all |
| ArchiveRemoval.ArchiveStore.RemoveInstanceArchive | backend/cli/bootstrap/destroy_archive.go:514-560 | list, delete and list again leave the objects and the verdict RemoveAll says, whatever the store refuses or spares |
| ArchiveRemoval.ArchiveStore.SettleArchive | backend/cli/bootstrap/destroy_archive.go:475-510 | the checks come first, then the removal, ending as Settle says |
| ArchiveDestroy.RerunPlansTheSame | backend/cli/bootstrap/destroy.go:150-191 | over any sequence of interrupted and re-run destroys, with the event store going at any time, once a plan is written down every re-run plans the same bucket, prefix and endpoint if and only if it may remove, can read what it needs and, with the event store gone, finds a record that no torn rewrite garbled |
| ArchiveDestroy.TornRewriteLosesThePlan | backend/cli/bootstrap/destroy.go:296-303 | from any world a destroy would remove from, a history of successful reads with one torn rewrite of the record that ends in not knowing what to remove |
| ArchiveDestroy.UnreadableRerunGivesUp | backend/cli/bootstrap/destroy_archive.go:216-243 | a re-run that cannot read the event store, or finds it gone and the record unreadable, removes nothing and still finishes |
| ArchiveDestroy.DeletesOnlyAfterGone | backend/cli/bootstrap/destroy_archive.go:475-510 | in every history an object disappears only while a Remove plan over it is settled with event store and namespace gone |
| ArchiveDestroy.RecordOutlivesInterrupts | backend/cli/bootstrap/destroy.go:185-191 | the record is removed only by a run that emptied the prefix, or was refused by the store without being interrupted, or removed nothing by plan |
| ArchiveDestroy.InterruptKeepsTheRecord | backend/cli/bootstrap/destroy_archive.go:462-473 | an interrupt with something left ends the run with the record in place |
| ArchiveDestroy.OnlyAnInterruptStopsSettling | backend/cli/bootstrap/destroy_archive.go:453-473 | a settlement stops the run exactly when it was an interrupted removal with something left |
| ArchiveDestroy.DestroyRemovesTheArchive | backend/cli/bootstrap/destroy.go:150-191 | from any world to remove from, a destroy that meets no failure empties the prefix, leaves every other object as it was and removes the record |
| ArchiveDestroy.RerunRemovesTheArchive | backend/cli/bootstrap/destroy_archive.go:453-473 | one that dies after writing its plan down is finished by a re-run from the record, emptying the same prefix |
| Placement.SelectorExactly | backend/cli/bootstrap/dbplacement.go:74-89 | a selector is valid if and only if it is a qualified key, "=" and a label value |
| Placement.QualifiedNameExactly | backend/cli/bootstrap/dbplacement.go:79-82 | a qualified name is a name part, or a DNS subdomain, "/" and a name part |
| Placement.NamePartExactly | backend/cli/bootstrap/dbplacement.go:79-88 | a name part or label value is what Kubernetes' pattern reads, of fewer than 64 characters |
| Placement.DnsLabelExactly | backend/cli/bootstrap/dbplacement.go:79-82 | a label of a key's prefix is what Kubernetes' pattern reads |
| Placement.SubdomainExactly | backend/cli/bootstrap/dbplacement.go:79-82 | a key's prefix is such labels with dots between, of fewer than 254 characters |
| Placement.TolerationExactly | backend/cli/bootstrap/dbplacement.go:128-174 | an entry parses to a toleration if and only if the toleration is one the flag can write, with the reserved taints and the three effects spelled out, and the entry is its spelling |
| Placement.EffectIsRead | backend/cli/bootstrap/dbplacement.go:128-139 | what follows the last ':' is the effect and must be one of the three |
| Placement.BodyIsRead | backend/cli/bootstrap/dbplacement.go:140-162 | which fault of key or value is reported, in the order they are looked for |
| Placement.CanonicalOfParse | backend/cli/bootstrap/dbplacement.go:128-174 | the canonical spelling of what an entry parses to is that entry |
| Placement.ParseOfCanonical | backend/cli/bootstrap/dbplacement.go:128-174 | the canonical spelling of any well-formed toleration parses to it |
| Placement.CanonicalFormIsUnique | backend/cli/bootstrap/dbplacement.go:71-123 | the canonical form depends only on the set of entries, not on order or repetition |
| Placement.CanonicalExample | backend/cli/bootstrap/dbplacement.go:112-122 | {"b=1", "a=2"} is stored as "a=2,b=1" |
| StringOrder.LessExactly | backend/cli/bootstrap/dbplacement.go:116-121 | the order of sort.Strings spelled out: the first difference, or the shorter string |
| Placement.EqualExactlyWhenSameEntries | backend/cli/bootstrap/dbplacement.go:43-57 | two parsed placements are equal if and only if they have the same entries |
| Placement.SplitsBack | backend/cli/bootstrap/dbplacement.go:227-232 | splitting a stored placement gives exactly the lists it was joined from |
| Placement.RecordedFormIsFixed | backend/cli/bootstrap/installrecord.go:292-300 | the parser's output, split and parsed again, is itself |
| Placement.CheckEntry | backend/cli/bootstrap/dbplacement.go:74-89 | the fault of one selector by itself, none exactly when it is valid |
| Placement.GatherLabels | backend/cli/bootstrap/dbplacement.go:72-94 | accepts exactly valid selectors no two of which contradict each other, and otherwise reports the first fault |
| Placement.GatherTolerations | backend/cli/bootstrap/dbplacement.go:96-107 | accepts exactly entries that all parse, keeps each canonical entry once, and otherwise reports the first that does not parse |
| Placement.ParseDatabasePlacement | backend/cli/bootstrap/dbplacement.go:71-123 | accepts exactly the entries that can place a database and returns their canonical form; otherwise reports the first faulty selector, then the first faulty toleration, then tolerations alone |
| Placement.Reparse | backend/cli/bootstrap/installrecord.go:294-300 | a recorded placement re-parses to itself if and only if the parser could have produced it |
| Placement.NodeSelector | backend/cli/bootstrap/dbplacement.go:180-187 | the labels of the stored pairs |
| Placement.Tolerations | backend/cli/bootstrap/dbplacement.go:190-198 | each stored entry parsed, in order |
| Placement.PlacementFromOutputs | backend/cli/bootstrap/dbplacement.go:390-427 | a missing output or a valueless Equal is an error; otherwise the reported entries go through the one parser |
| Placement.ApplyAndReadBack | backend/cli/bootstrap/dbplacement.go:220-427 | what the cluster apply is told reads back as the same placement, for every parsed one |
| WebhookScan.ScanIsExact | backend/cli/bootstrap/cnpgadmission.go:147-179 | the skipping scan decides "some occurrence is followed by a quoted cnpg.io name" on every text if and only if the marker cannot overlap itself |
| WebhookScan.ScanIsSound | backend/cli/bootstrap/cnpgadmission.go:158-179 | what the scan finds is there, whatever the marker |
| WebhookScan.BorderedIsMissed | backend/cli/bootstrap/cnpgadmission.go:158-179 | a text in which a self-overlapping marker is missed |
| WebhookScan.NamesCnpgWebhook | backend/cli/bootstrap/cnpgadmission.go:158-179 | the loop ends, its early false is right, and it decides the scan of the collapsed message |
| WebhookScan.NamesWebhookExactly | backend/cli/bootstrap/cnpgadmission.go:147-179 | the statement spelled out: some marker is followed by a quote, a name ending in .cnpg.io and a quote |
| WebhookScan.CollapsedIsTidy | backend/cli/bootstrap/cnpgadmission.go:159 | a collapsed message is words with one space between each two, and exactly such a message is its own |
| WebhookScan.EdgesAreTrimmed | backend/cli/bootstrap/cnpgadmission.go:159 | white space at the edges is dropped |
| WebhookScan.SpacesExactly | backend/cli/bootstrap/cnpgadmission.go:159 | white space is Unicode's White_Space, by the characters' numbers |
| WebhookScan.IsCnpgWebhookUnavailable | backend/cli/bootstrap/cnpgadmission.go:135-137 | true exactly when the collapsed message has the call-failure wording before a quoted cnpg.io name |
| WebhookScan.IsCnpgWebhookDenial | backend/cli/bootstrap/cnpgadmission.go:143-145 | the same for the denial wording |
| WebhookScan.WhiteSpaceDoesNotMatter | backend/cli/bootstrap/cnpgadmission.go:150-159 | replacing any run of white space by any other changes neither the collapsed message nor the verdict |
| ClipTimeline.BuildTimeline | hack/video-capture/video_capture.py:416-428 | the timeline holds exactly what the window keeps of the sorted frames |
| ClipTimeline.HoldFrames | hack/video-capture/video_capture.py:424-428 | the loop: each entry until the next is due, the last until the end, at least a millisecond |
| ClipTimeline.KeepsOpening | hack/video-capture/video_capture.py:418-421 | of unsorted frames, a window keeps the last one at or before its start and every one inside it, as often as captured, in order |
| ClipShowing.EntryLasts | hack/video-capture/video_capture.py:425-427 | an entry is held for the gap to the next stamp, or to the end, when that is a millisecond or more, and otherwise for a millisecond |
| ClipShowing.OffsetBounds | hack/video-capture/video_capture.py:425-428 | every entry comes on screen at its stamp or later, late by at most a millisecond for each entry before it, and on time exactly when no earlier gap is short |
| ClipShowing.TotalIsTheWindow | hack/video-capture/video_capture.py:416-428 | durations sum to end minus start if and only if stamps are a millisecond apart; the excess is at most a millisecond an entry if and only if the window is not reversed |
| ClipShowing.InStepExactly | hack/video-capture/video_capture.py:424-428 | the entry on screen is the one the window asks for, at every instant, if and only if no entry but the last is stretched |
| ClipShowing.ShowsTheLatest | hack/video-capture/video_capture.py:416-428 | for unsorted frames, every instant shows the last frame stamped at or before it if the stamps inside the window are a millisecond from each other and from its start, and only if, when no two frames share a path |
| ClipShowing.ShortGapExample | hack/video-capture/video_capture.py:424-428 | two frames half a millisecond apart, where an instant shows the older |
| ClipShowing.ShowsNoOlder | hack/video-capture/video_capture.py:416-428 | in any clip that opens on a frame, the frame on screen is stamped no later than the instant and is no older than the last one as of a millisecond an entry earlier |
| ClipShowing.ShowsOne | hack/video-capture/video_capture.py:425-428 | never two frames at one instant |
| ClipShowing.LateFirstFrame | hack/video-capture/video_capture.py:421 | with frames inside the window but none before it, the clip opens on the first and lacks the wait for it |
| ClipShowing.FirstStandsIn | hack/video-capture/video_capture.py:422-423 | with no frame before the end of the window the first one fills it |
| ClipShowing.TrimExactly | hack/video-capture/video_capture.py:446-454 | the head comes off the start and the tail off the end, nothing is left exactly when they take everything, and only an unmet minimum moves the end |
| ClipShowing.TrimmedClip | hack/video-capture/video_capture.py:446-454 | a trimmed window is at least the minimum; a clip of any frames cut to it lasts from its opening to its end, longer by at most a millisecond an entry, and reaches the minimum when it opens with its window |
| UrlScrub.ScrubbedParts | docs/static/analytics-scrub.js:59-70 | the scrubbed address re-parses to the same path, the scrubbed query and the scrubbed or unchanged fragment |
| UrlScrub.KeepsExactlyTheHarmless | docs/static/analytics-scrub.js:46-70 | query and parameter fragment keep exactly the pairs that are not sensitive, each as often and in their order, unless exactly one empty pair is all that is left, and then they do not; plain anchors are unchanged |
| UrlScrub.HarmlessCounts | docs/static/analytics-scrub.js:48-54 | a pair is kept as often as it was there, and a sensitive one never |
| UrlScrub.HarmlessInOrder | docs/static/analytics-scrub.js:48-54 | what is kept of two runs of pairs is what is kept of each, in turn |
| UrlScrub.KeptInOrderIsOne | docs/static/analytics-scrub.js:48-55 | a list of pairs has one part with those counts in that order |
| UrlScrub.SensitiveByName | docs/static/analytics-scrub.js:51-53 | a pair is sensitive by what is before its first '=', or by all of it |
| UrlScrub.LoneEmptyPairIsDropped | docs/static/analytics-scrub.js:59-70 | "token=1&" loses its harmless empty pair |
| UrlScrub.NothingSensitiveIsReported | docs/static/analytics-scrub.js:46-70 | the scrubbed address has no sensitive pair wherever it is read for parameters, for any list and any decoding |
| UrlScrub.SearchTermsAreHidden | docs/static/analytics-scrub.js:17-36 | with the site's list, no reported pair is named q, _highlight or any other name on it |
| UrlScrub.SearchIsReportedBare | docs/static/analytics-scrub.js:8-13 | the address of a search is reported as its path alone |
| UrlScrub.UnchangedExactlyWhenClean | docs/static/analytics-scrub.js:58-70 | an address is returned as is if and only if it has no sensitive pair and no empty query or fragment mark |
| UrlScrub.ScrubIsIdempotent | docs/static/analytics-scrub.js:59-70 | scrubbing twice is scrubbing once, for any list and any decoding |
| StallEpisodes.GroupMarks | hack/perf-ab/perf_ab.py:222-230 | the scan that updates the last episode computes EpisodesOf the sorted lines |
| StallEpisodes.ReadMarks | hack/perf-ab/perf_ab.py:215-220 | the stamped matching lines with their kinds, in the order of the log |
| StallEpisodes.MarksLineByLine | hack/perf-ab/perf_ab.py:215-220 | each log line is read by itself, in its turn |
| StallEpisodes.MarkOfOne | hack/perf-ab/perf_ab.py:216-220 | a line counts exactly when it is stamped and matches, and is a leader change exactly when it speaks of a leader and not of a quorum |
| StallEpisodes.FindEpisodes | hack/perf-ab/perf_ab.py:207-235 | the episodes of the matching lines, each with its distance from the window's start; nothing without a log |
| StallEpisodes.ScanGroups | hack/perf-ab/perf_ab.py:222-230 | lines are cut exactly where neighbours are further apart than the gap, and each episode sums up one run |
| StallEpisodes.GroupingIsUnique | hack/perf-ab/perf_ab.py:222-230 | there is only one such way to cut, for any gap |
| StallEpisodes.EpisodesAreTheMaximalGroups | hack/perf-ab/perf_ab.py:207-230 | for a gap of zero or more the episodes are the one description of the lines, in any order, as maximal groups: bounds, count, and stall if and only if some line is |
| StallEpisodes.OrderDoesNotMatter | hack/perf-ab/perf_ab.py:221 | lines written in another order give the same episodes |
| StallEpisodes.EveryLineCountsOnce | hack/perf-ab/perf_ab.py:222-230 | the episodes' line counts add up to the matching lines, for any gap |
| StallEpisodes.InWindowIsIntersection | hack/perf-ab/perf_ab.py:231-234 | inWindow is interval intersection, except exactly for a reversed window inside the episode |

## Left out

- ClaimTiming.OverlapIsBounded: assumes a running renewal loop whose calls end within an interval; a suspended process is outside it, as the source says.
- AcquireClaim's read after AlreadyExists, looksStale, heldError and PeekClaim: they only choose the wording of a refusal.
- Holder identities as text, annotations, acquireTime and leaseDurationSeconds of the Lease: no decision reads them.
- BrokerObjects.Options.ApplyDeviceTls: configs are values, so that cloning protects a config shared between listeners is not captured.
- The window between ReloadOptions and the load-time read after it, lame duck mode, the probe handshake and its metrics.
- ArchivePlan: the URL parser is a parameter, any function; ArchiveDestroy.RerunPlansTheSame asks of it only that an empty endpoint names no Service.
- Reading and writing the record as JSON text (a torn write is modelled as an unreadable file), credentials and port forwarding to the store, and the report of earlier archives.
- The destroy of an instance whose cluster is gone, --without-state, the prompt, and beginDestroy's best-effort lock: no mutual exclusion of destroys is claimed.
- Placement: JSON encoding of variables and outputs, usableNodes and its taint rule, and message wording.
- Placement.PlacementFromOutputs: which error is reported of several bad labels depends on the order a map is walked in, and is not stated.
- WebhookScan.NamesCnpgWebhook: asks for a marker that is not empty, since on an empty one the source need not end.
- applyWithCNPGAdmissionRetry and the webhook probe: a sequence of cluster effects around the two classifiers.
- ClipTimeline, ClipShowing, StallEpisodes: floating-point rounding; times are real numbers. The log's two patterns are inputs to the model.
- UrlScrub: non-string input, and the event walking around scrubUrl (scrubBag, scrubEvent, page titles).
- Leader rebalancing, bootstrap step order, certificate handling, browser driving and the statistics of perf_ab.
