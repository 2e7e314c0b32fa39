# Noyra, verified: durable state, admission and text formats

A Dafny model of the parts of Noyra whose correctness rests on what survives a crash, on counts over a
window of time, or on a writer and a reader that must agree byte for byte, with proofs of what these parts
promise. `dafny verify dfyconfig.toml` checks everything.

## What is modelled

**Resumable garbage collection** (`scripts/deployment-maintenance.py`), in seven modules.
`GcIndex` is the immutable ordinal index with its hash chain. `GcProtocol` separates what is durable (audit
rows, index files, manifests, releases, backups, markers) from everything else: a `Step` is one durable
write, `Allowed` is when the protocol permits it, and a crash is simply a trace that stops. `GcRuns` holds
the theorems over whole traces: any number of invocations, under any plans, cut off anywhere, with outside
interference in between. `GcCollector` is `apply_resumable_gc` itself as a class: every durable write goes
through `Commit`, which lets it happen, raise, or kill the process, as a fault script says, and which only
accepts writes the protocol allows; its ghost history ties the code to the trace theorems. `GcWork` holds
the predicates and lemmas between the two, `GcCourse` what one invocation leaves to the next: a run that
stays on course for its plan after a closed batch, and after a crash. `GcFate` says, of any pending run and any
plan, what an undisturbed invocation makes of it: it advances, is written off, is replaced by a fresh run, or is
left alone.

**Signer ledger** (`Signer`): one request from absent to pending to broadcast or unknown, with the network
send in the middle, the RPC node answering anything, and crashes anywhere.

**Admission limiters**: `RateLimiter` (pruned and purged deques against a count over the full history, for
clock readings in any order: they are taken before the lock, so they may arrive out of order) and
`Capability` (grants with a rolling hourly limit counted over the ledger of uses).

**Autonomy loop control state**: `Circuit` (durable breaker), `Backoff` (saturated exponential),
`SleepConflict` (deadline rebuilt from an event log).

**Append-only ledgers**: `Frames` (hash-chained consciousness frames) and `Workflow` (checkpoints), each with
its writer and its independent verifier.

**Loops over text and bytes**: `LogRotation`, `GitBatch` (blob framing), `PathTree` and `Manifest` (inventory
paths and checksums), `EnvText`, `EnvFile` and `EnvRepeat` (environment files). `Text`, `Bytes`, `Sequences`
and `Wrappers` are shared.

Conventions. A hash is symbolic: the term that was hashed, or text no hash produced, so equal hashes mean
equal contents. Identities that are only compared are numbers; text whose characters matter is text. Times
are numbers in the unit the source stores. What the outside decides (the plan computed for an invocation, RPC
answers, clock readings, a database query's row order where it is open, case folding) is an argument and may
be anything, unless a `requires` says otherwise. A precondition that is not a type stands for something the
source establishes before the call: the names in a collection plan are distinct, a dictionary has no key
twice, an inventory was reviewed before it is checked.

Where a function or predicate serves both the code and its contracts, a lemma (most are named `...Iff`) states it
again in terms of the stored data, literal constants, positions and counts, so that the two cannot be wrong together.

Some of the expected properties do not hold as one would first state them. Each has a concrete or
parametric failing case and an exact condition:

- A circuit can be stored closed above its threshold (`Circuit.ClosedAboveThreshold`), exactly if two tick
  bodies have started since the failure that opened it (`ClosedAboveThresholdIff`).
- A blocked event that could not be appended unbalances the sleep log
  (`SleepConflict.LostBlockedBreaksAlternation`), exactly if its conflict is cleared in the log later on
  (`AlternatesIff`).
- A crash between removing a backup and its marker loses the run (`GcFate.CrashLosesRun`), exactly if the marker
  disagrees with the plan on the size (`GcFate.CrashAfterUnlinkIff`).
- A hash that was sent can be answered with `legacy_unbound` (`Signer.UnboundRowAnswersFirst`), exactly if an
  unbound row carries it too (`Signer.ReceiptFindsTransferIff`).
- A clock set back makes the workflow writer produce what its own verifier refuses (`Workflow.ClockSetBack`,
  exact in `WriterAndReaderAgree`).
- Rotating a log that ended in an unterminated line can lose the new snapshot
  (`LogRotation.UnterminatedFileLosesLine`, exact in `AppendIsSoundIff`).
- Updating an environment file twice is not always updating it once: a key that starts with `NOYRA_` but is not
  a variable name is appended again and again (`EnvRepeat.BareNoyraIsRepeated`), and a line swallowed by an update
  is lost to the next one (`EnvRepeat.SwallowedLineIsLost`); exact for every text in `EnvRepeat.UpdateTwiceIff`.
- An unusual line break, such as a vertical tab, makes an update swallow the next line
  (`EnvFile.VerticalTabSwallowsLine`) or leave a blank one (`EnvFile.VerticalTabAddsEntry`); the update does
  what it should exactly if no value holds a line break, no updated line but the last ends in an unusual one, and
  nothing is added after a last line that ends in one (`EnvFile.UpdateMeansOverwrite`).

## Model

| member | source | states |
|---|---|---|
| `GcIndex.WriteIndex` | scripts/deployment-maintenance.py:725-770 | The two passes (insert rows, then link them backwards) leave exactly the chained table of the actions and return the head of the chain. |
| `GcIndex.LinkRows` | scripts/deployment-maintenance.py:750-758 | The backward pass gives every row the chain value of its successor, from any table holding the payloads. |
| `GcIndex.IndexIsLinked` | scripts/deployment-maintenance.py:725-770 | Row by row: the table has one row for each ordinal, holding its action and the hash of the row after it, that row's ordinal included; the last row carries the end marker, and the root is the hash of the first. |
| `GcIndex.RootDeterminesActions` | scripts/deployment-maintenance.py:750-768 | Two action lists with the same chain head are the same list. |
| `GcIndex.ListedOfChain` | scripts/deployment-maintenance.py:750-758 | The list read off a chain value is the planned list from that ordinal on. |
| `GcIndex.ReadBatch` | scripts/deployment-maintenance.py:773-810 | A batch comes back if and only if every row of the range is there, hashes with its ordinal to what the row before it carries (the first to the expected digest), holds an action, and the last one closes the chain when the range ends at the action count; it is what the rows hold. Only if the first row that breaks this is linked and holds no action is the manifest called invalid. |
| `GcIndex.WalkIff` | scripts/deployment-maintenance.py:785-804 | The walk gets through exactly if all rows are linked and hold actions, and the first one that does not decides the complaint. |
| `GcIndex.AcceptedBatchIsOriginal` | scripts/deployment-maintenance.py:773-810 | Tamper evidence: whatever the file holds now, a batch accepted from a cursor with the right chain value is the slice originally written, and ends in the chain value of its end. |
| `GcIndex.IntactBatchIsAccepted` | scripts/deployment-maintenance.py:773-810 | The converse: if the rows of the batch are as written, the batch is accepted. |
| `GcIndex.BatchesReassemble` | scripts/deployment-maintenance.py:1303-1304 | However the work is split into batches and however the file changes between them, the accepted batches put together are the planned list. |
| `GcProtocol.StepKeepsInv` | scripts/deployment-maintenance.py:1168-1412 | Every durable write and every tolerated outside change keeps: cursors point into the list they commit to, recorded actions are collected (up to the marker owed by `cleanup_action`), applied rows are complete, one pending run per subject. |
| `GcProtocol.PlanIsSpelled` | scripts/deployment-maintenance.py:566-579 | The action list of a plan is one action for each release with the hash of its marker, then one for each backup detail with its size and hash, in the order of the plan and nothing else; there is none exactly if a planned release has no marker to hash. |
| `GcProtocol.SpelledIsPlanned` | scripts/deployment-maintenance.py:566-579 | Every action spelled is in the plan, and every release and backup detail of the plan is spelled. |
| `GcProtocol.AdvanceKeepsInv` | scripts/deployment-maintenance.py:1336-1351 | Recording progress with `cleanup_action` set keeps the invariant. |
| `GcProtocol.ConvertKeepsInv` | scripts/deployment-maintenance.py:1231-1257 | Replacing a legacy cursor by an indexed one keeps the invariant, so conversion establishes the chain value the reader needs. |
| `GcProtocol.CloseKeepsInv` | scripts/deployment-maintenance.py:1371-1379 | Closing a batch, as planned or as applied, keeps the invariant. |
| `GcProtocol.FailKeepsInv` | scripts/deployment-maintenance.py:1387-1402 | Writing a run off as failed keeps the invariant, also with the in-memory cursor one action ahead of the durable one. |
| `GcRuns.PrefixIsLegal` | scripts/deployment-maintenance.py:1168-1412 | A run cut off between any two durable writes is still a run of the protocol. |
| `GcRuns.InvariantHolds` | scripts/deployment-maintenance.py:1168-1412 | The invariant holds after every legal trace. |
| `GcRuns.RecordedInOrder` | scripts/deployment-maintenance.py:1327-1355 | Over any trace the actions of a run are recorded in ordinal order, each exactly once, and `deleted_count` moves in lockstep with `next_index`. |
| `GcRuns.AppliedMeansCollected` | scripts/deployment-maintenance.py:1371-1379 | At the write that marks a run applied, every release, backup and matching marker of its list is gone and the whole list has been recorded. |
| `GcRuns.AppliedPlanIsDone` | scripts/deployment-maintenance.py:1259-1379 | From the plan to its completion, over any trace: when a run inserted under a plan is marked applied, no release name of the plan is on disk, no backup of it, and no marker that names one with its hash; as many actions were recorded and counted as the plan has releases and backups. |
| `GcRuns.CollectorOnlyTakesAway` | scripts/deployment-maintenance.py:1168-1412 | As long as nobody interferes, no release, backup or marker appears or changes: what is there later was there before. |
| `GcRuns.TerminalIsFinal` | scripts/deployment-maintenance.py:263-307 | Once a row is applied or failed, or if its cursor has an unknown version, no later write of any trace changes it. |
| `GcRuns.RemovalIsPlanned` | scripts/deployment-maintenance.py:1069-1094 | Deletion safety: an artifact is removed only if a durable planned row stands at it and the index on disk names it; a release only with the planned marker and a passed verdict, a backup only with the planned size and hash and a known, restore-verified marker for it; the plan of this invocation holds it; and the row was inserted earlier, after its index. |
| `GcRuns.MarkerRemovalIsSafe` | scripts/deployment-maintenance.py:1014-1034 | When a marker is removed its backup is gone, the marker is a known, restore-verified one for that name and the hash of a backup action a pending run has reached, and if the backup existed at the start of the trace, an earlier write took it: the removal a plan permitted, or somebody else's. |
| `GcRuns.LiveMarkerIsKept` | scripts/deployment-maintenance.py:1157-1163 | As long as nobody interferes, a backup that is still there at the end of a trace still has the very marker it had at any earlier point, whatever runs were started, crashed or finished in between. |
| `GcRuns.EvidenceIsKept` | scripts/deployment-maintenance.py:635-691 | As long as a run is not applied, no write of the collector removes its index or manifest or rewrites the index its cursor points into. |
| `GcRuns.AtMostOnePending` | scripts/deployment-maintenance.py:199-260 | At every point of every trace a subject has at most one planned row with a cursor of version 2 to 5. |
| `GcRuns.PositionAfter` | scripts/deployment-maintenance.py:1303-1303 | After `k > 0` undisturbed invocations from a position the run stands 1000 actions further for each of them, or at the end. |
| `GcRuns.FinishedAfter` | scripts/deployment-maintenance.py:1303-1303 | Batches of 1000 from any position: `n` actions are done after `k` invocations exactly when `k >= max(1, ceil((n - start) / 1000))`. `Collector.Drive` and `Collector.Recover` show that the code advances this way. |
| `GcCourse.ClosedBatchStaysOnCourse` | scripts/deployment-maintenance.py:1371-1379 | After a batch closed as planned, cursor, index and remaining artifacts are again such that the next invocation can do its batch. |
| `GcCourse.OnCourseUnderPlan` | scripts/deployment-maintenance.py:1175-1190 | A run on course for one plan is on course for any later plan with the same policy and protected set that still holds the remaining actions. |
| `GcCourse.StaysCrashSafe` | scripts/deployment-maintenance.py:1168-1412 | Wherever the collector is cut off, a run that was on course with agreeing markers is so again as long as it is pending. |
| `GcCourse.AllCollected` | scripts/deployment-maintenance.py:1327-1370 | A batch that was found fine and then gone through entry by entry was ready as a whole at the start, and what else was ready still is. |
| `GcFate.OnCourseAdvances` | scripts/deployment-maintenance.py:1288-1379 | A run that is on course for its plan advances. |
| `GcFate.FateIff` | scripts/deployment-maintenance.py:1175-1230 | From the row, the plan and the evidence files: a row out of bounds or with another plan id is left alone; a changed policy or protected set, which version 2 does not record, supersedes the run; a missing index or manifest loses its evidence exactly if neither is the case; a manifest with another hash or count is not read. |
| `GcFate.AdvancesIff` | scripts/deployment-maintenance.py:1288-1379 | An indexed run advances if and only if its owed cleanup is possible, the next 1000 rows of its index are as written, and each of those actions is ready once the cleanup is done. |
| `GcFate.CleanupReadyIff` | scripts/deployment-maintenance.py:1297-1302 | The owed cleanup is blocked exactly by a marker, left without its backup, that is not that backup's. |
| `GcFate.CurrentIff` | scripts/deployment-maintenance.py:940-976 | The current actions are the releases and backups the plan lists that are on disk, with their hashes. |
| `GcFate.FittingIsFine` | scripts/deployment-maintenance.py:918-937 | Every action of a legacy plan that fits the current one passes revalidation against it, so a converted run is not superseded in the same invocation. |
| `GcFate.ConvertedFate` | scripts/deployment-maintenance.py:1204-1257 | A run has the same fate after its conversion as its legacy plan had before: it advances if the next 1000 actions are ready, and is written off if not. |
| `GcFate.CrashAfterUnlinkIff` | scripts/deployment-maintenance.py:1157-1163 | At the one point where an artifact is gone and not yet recorded, a crash leaves the run on course if it was a release or its marker agrees with the plan on the size; if not, the next invocation writes the run off, and under no plan does it ever advance. |
| `GcFate.CrashLosesRun` | scripts/deployment-maintenance.py:1003-1011 | A sound disk for any backup and any marker that names another size, on which this happens. |
| `GcWork.LoadPending` | scripts/deployment-maintenance.py:199-260 | The loaded run is the subject's only resumable planned run, none is reported only if there is none, and its cursor is in bounds. |
| `GcWork.JudgeIff` | scripts/deployment-maintenance.py:1305-1313 | Revalidation of one action, from disk and plan: stale exactly if its artifact is there and the plan no longer holds it with its hash and size, or the release has another marker; undecidable exactly if a planned release has no marker or a marker without its backup is somebody else's. |
| `GcWork.ReadyIff` | scripts/deployment-maintenance.py:1069-1147 | An action can be carried out exactly if its artifact is gone without a foreign marker, or is planned and as described, its marker known, matching and passed or restore-verified. |
| `GcWork.RestartIff` | scripts/deployment-maintenance.py:566-579 | A plan can be carried out, by its releases and backups, exactly if every action it spells is ready. |
| `GcWork.CheckCompatible` | scripts/deployment-maintenance.py:918-937 | The loops over keys decide exactly: compatible if every persisted action is the current one under its key or gone and safe, and no current one is new; incompatible if the keys clash or the first action that does not fit is changed or still there; an unsafe marker met first is the only other outcome. |
| `GcWork.FreshActionsArePlanned` | scripts/deployment-maintenance.py:566-579 | The actions a plan spells pass the revalidation against that plan, so a fresh run is never superseded by its own plan. |
| `GcCollector.Collector.Commit` | scripts/deployment-maintenance.py:263-307 | A durable write allowed by the protocol happens in full or not at all, and the history stays legal. |
| `GcCollector.Collector.CleanupArtifacts` | scripts/deployment-maintenance.py:1014-1034 | Only the matching marker of an absent backup goes, and afterwards the action is collected; no release, backup or live marker is touched. |
| `GcCollector.Collector.DeleteArtifact` | scripts/deployment-maintenance.py:1097-1165 | After repeating the checks on the artifact itself, exactly the artifact and its marker are gone; it succeeds only if the artifact passes them, and a failed check removes nothing. |
| `GcCollector.Collector.RecordProgress` | scripts/deployment-maintenance.py:1329-1351 | The row moves one action with its chain value, its count and the owed cleanup; a failed write leaves the durable row as it was. |
| `GcCollector.Collector.FinishCleanup` | scripts/deployment-maintenance.py:1297-1302 | The cleanup owed by the persisted `cleanup_action` is finished before the next batch, exactly if its marker is not unsafe; then every recorded action is collected and nothing else has changed. |
| `GcCollector.Collector.Revalidate` | scripts/deployment-maintenance.py:1305-1313 | The whole batch is looked at before any deletion, and the first action that is not fine decides: it passes exactly if all are fine, and is called stale exactly if that first one is present and has left the plan. |
| `GcCollector.Collector.CollectEntries` | scripts/deployment-maintenance.py:1327-1370 | The deletion loop takes the run through the batch entry by entry, only if every action was ready at the start, and without a fault exactly then; on any failure the locals are what the row may still be ended with. |
| `GcCollector.Collector.CollectBatch` | scripts/deployment-maintenance.py:1296-1402 | One batch under a plan. It is closed only if it was ready and superseded only if its first action that is not fine was stale; if any was not fine, no release or backup is deleted. Without a fault it is closed exactly if ready, superseded exactly if stale first, and otherwise the run is written off as failed; an applied run leaves no evidence files. |
| `GcCollector.Collector.CleanupOrphans` | scripts/deployment-maintenance.py:635-691 | Drops only evidence of runs that are unknown or applied, and all of it when it completes. |
| `GcCollector.Collector.StartRun` | scripts/deployment-maintenance.py:1259-1286 | The index is durable before the row; the fresh run is bound to exactly the releases and backups of the plan, is not stale under it, and is the only change to the rows. Without a fault it is started exactly if every planned release has a marker to hash. |
| `GcCollector.Collector.DigestAt` | scripts/deployment-maintenance.py:1244-1248 | The digest found by reading the completed prefix is the chain value of the migrated position. |
| `GcCollector.Collector.ConvertLegacy` | scripts/deployment-maintenance.py:1204-1257 | Refused exactly if the list can be read and the plans clash, and then nothing was touched; without a fault a legacy run becomes an indexed run with the same list, position, count and owed cleanup, under the policy and protected set of the plan, exactly if its list can be read, fits and holds its position; the completed actions are cleaned up, the rest is as before, and in every other case the row is left alone. |
| `GcCollector.Collector.ApplyResumableGc` | scripts/deployment-maintenance.py:1168-1412 | Every invocation extends a legal history whatever fails; a finished one reports what the row says, and names a superseded run exactly if a fresh one took its place and it has failed. A fresh run has one action for each release and backup of the plan, and if it is reported applied, none of them and no marker of theirs is left. Without faults the pending run meets its fate: it advances by one batch, is written off, is replaced with the right failure code, or is left alone; if the plan can be carried out, a fresh run stands at the end of its first batch and on course. A crash loses no run, and a run whose markers agree can be finished afterwards with the same plan. Its measure shows that superseding recurses at most once. |
| `GcCollector.Collector.RunFresh` | scripts/deployment-maintenance.py:1259-1379 | With nothing pending, a fresh run of all releases and backups of the plan is started and its first batch closed; if that finished it, nothing the plan lists is left. It cannot be superseded, it reports the run it replaces, and no other row changes. |
| `GcCollector.Collector.ResumeRun` | scripts/deployment-maintenance.py:1175-1257 | Without faults the pending run is ended with `plan_superseded` if the policy or protected set moved on, its batch is stale or its legacy plan clashes, with `machine_local_evidence_unavailable` if its index or manifest is gone, and then a plan that can be carried out is started afresh; it is converted if it is old and fits, and then advances or is written off like any other. |
| `GcCollector.Collector.Continue` | scripts/deployment-maintenance.py:1288-1402 | Without faults an indexed run advances exactly if its batch is ready, is replaced exactly if it is outdated, and is written off otherwise. |
| `GcCollector.Collector.ResumeLegacy` | scripts/deployment-maintenance.py:1204-1257 | Without faults a legacy run is replaced exactly if its plan clashes, left alone if its list cannot be read or does not fit, and otherwise converted and then advanced or written off. |
| `GcCollector.Collector.Drive` | scripts/deployment-maintenance.py:1288-1412 | From any state in which the first plan can be started, with later plans that agree with it and still hold what is left, `k` fault-free invocations bring the run to `min(1000 k, n)` of its `n` actions, where `n` is the number of releases and backups of the first plan; its row is applied if and only if `n <= 1000 k`, and then nothing the first plan lists is left on disk. |
| `GcCollector.Collector.Recover` | scripts/deployment-maintenance.py:1168-1412 | From a crash to the end: a pending run whose markers agreed before, whatever the collector wrote since and wherever it was cut off, is applied after `k` fault-free invocations if and only if the `n - p` actions left from its position `p` are at most `1000 k`, and then all are collected. |
| `Signer.StepKeepsInv` | src/noyra/signer_service.py:432-502 | However a call ends, every send stays covered by a committed pending row with its hash and a consistent envelope, and no request has two sends. |
| `Signer.AtMostOneBroadcast` | src/noyra/signer_service.py:432-502 | Over any history of retries, RPC failures, crashes and restarts, `eth_sendRawTransaction` is issued at most once per request, never before its pending row was committed. |
| `Signer.RowsOnlyMoveForward` | src/noyra/signer_service.py:439-502 | Rows never disappear or change transfer, hash or envelope, and once a call is over a status only moves from pending to unknown. |
| `Signer.RepliesAreStable` | src/noyra/signer_service.py:443-464 | A successful reply repeats identically for ever, and the same request id with another transfer is refused for ever. |
| `Signer.RetrySettles` | src/noyra/signer_service.py:446-455 | A retry answered `broadcast_unknown` settles the request: its row is unknown from then on, and no later history makes it pending again. |
| `Signer.SentIsReconcilable` | src/noyra/signer_service.py:465-502 | Every hash ever sent still has, under the request it was sent for, a bound row whose envelope is the transfer that was signed. |
| `Signer.ReceiptFindsTransferIff` | src/noyra/signer_service.py:504-530 | `receipt` looks up by hash and chain: for a hash ever sent it finds rows, and whichever comes first it goes on with the transfer that was signed, if and only if none of them is unbound; an unbound one is answered `legacy_unbound`. |
| `Signer.UnboundRowAnswersFirst` | src/noyra/signer_service.py:504-519 | For every transfer there is a history with one accepted call after which an old unbound row with the same hash is among those found, and is answered `legacy_unbound`. |
| `Signer.AdmittedIff` | src/noyra/signer_service.py:311-331 | A transfer is admitted if and only if the node is on the one chain, its nonce is the account's next, the estimates are within the envelope, and the balance covers it for every gas use up to the limit at every price up to the maximum. |
| `Signer.ExpectedTransferIff` | src/noyra/signer_service.py:504-530 | `receipt` goes on with a transfer exactly if the row is bound to it: same hash, chain and nonce; it answers `legacy_unbound` exactly for unbound rows. |
| `Signer.ConsistentIff` | src/noyra/signer_service.py:236-282 | A row passes the comparison exactly if its envelope is a native transfer on the one chain and every column agrees with it. |
| `Signer.SignerEngine.Transfer` | src/noyra/signer_service.py:432-502 | The call refines the step relation under every fault; it is invalid exactly for a bad id, chain, asset or source, and a rejection before the send leaves no row. A known request is answered from its row: without faults an unknown or pending one with `broadcast_unknown`, the row being unknown afterwards; an error or no answer means that a write did not go through and the row is as it was. A new one, without faults, is answered as the node answered the send. |
| `Signer.SignerEngine.FirstBroadcast` | src/noyra/signer_service.py:465-502 | Pending row, commit, send, verdict, in this order: a new request leaves no row, or its own row and at most one send. |
| `Signer.SignerEngine.AnswerFromRow` | src/noyra/signer_service.py:443-464 | A request on file is answered from its row and nothing is sent: another transfer conflicts, a broadcast one gets its receipt again, an unknown one `broadcast_unknown`; a pending one becomes unknown and is answered so, unless the write failed, and then nothing has changed. |
| `Signer.SignerEngine.Open` | src/noyra/signer_service.py:236-282 | Reopening binds exactly the rows whose envelope is a native transfer on the one chain that agrees with every column, and changes nothing else. |
| `RateLimiter.Limiter.AllowRequest` | src/noyra/service.py:1122-1144 | For every reading of the clock, also one older than those before it: an accepted request found fewer than the limit after the bound, a refused one at least the limit in its window widened by the lag; while readings come in order, it is accepted exactly when the complete history of its bucket has fewer than the limit in the last 60 seconds. The bucket is the client's own whenever it has one or there are fewer than 10,000; it is the shared one only if 10,000 other clients were accepted in the last 60 seconds. There are never more than 10,001 buckets. |
| `RateLimiter.Limiter.Admit` | src/noyra/service.py:1138-1144 | Popping expired entries and counting the rest decides as the full history does, and exactly the accepted request is recorded. |
| `RateLimiter.Limiter.ChooseBucket` | src/noyra/service.py:1127-1137 | The client keeps its own bucket unless it has none and, after a purge, 10,000 others are left, each with an acceptance in the last 60 seconds; only then is it the overflow bucket. |
| `RateLimiter.PurgeIsFaithful` | src/noyra/service.py:1128-1135 | Dropping whole buckets loses nothing after the bound: the start of the latest window plus the largest lag of a reading behind it, so without a lag nothing that can still count. |
| `RateLimiter.LengthIsBetween` | src/noyra/service.py:1139-1141 | After popping, the length of a deque lies between the acceptances after the bound and those in the window widened by the lag; without a lag the two are the same count. |
| `RateLimiter.NoWindowOverflows` | src/noyra/service.py:1141-1143 | In every window of the throttled width, wherever it starts, a bucket has at most the limit of acceptances; the limiter throttles a minute, less twice the lag of readings out of order. |
| `RateLimiter.NoMinuteOverflows` | src/noyra/service.py:1138-1144 | While readings come in order, no 60 seconds, wherever they start, hold more acceptances of a bucket than the limit. |
| `RateLimiter.LiveAreActive` | src/noyra/service.py:1128-1135 | Every bucket a purge keeps belongs to a client accepted in the last 60 seconds. |
| `Capability.Select` | src/noyra/capability/store.py:212-254 | The loop selects the oldest grant that permits the request, reports none only if no grant does, and stops at a corrupt row that comes first. |
| `Capability.AuthorizesIff` | src/noyra/capability/store.py:224-253 | The tests of the loop together are the rule: an active grant of the subject and kind, before its expiry, with side effects if asked for and no approval pending, over the resource (the root's parts in front of the path, a listed or any public host, a listed name), with fewer uses in the last hour than its limit, counted over the ledger. |
| `Capability.DeeperRootPermitsLess` | src/noyra/capability/store.py:272-280 | What lies below a root lies below every directory above it, so a longer root permits no more. |
| `Capability.StepKeepsLimits` | src/noyra/capability/store.py:96-142 | Every charge was within its grant's limit by the rows before it. |
| `Capability.NoHourOverflows` | src/noyra/capability/store.py:245-252 | No hour, by the uses' own timestamps and in whatever order they came, holds more uses of a grant than its positive limit. |
| `Capability.LimitHoldsOverRuns` | src/noyra/capability/store.py:96-142 | The hourly limit holds over every trace of grants, revocations and uses, even with the clock going backwards, counted as positions in the ledger. |
| `Capability.RevokedIsNeverCharged` | src/noyra/capability/store.py:70-94 | A revoked grant never changes again and is never charged again. |
| `Capability.CapabilityStore.Grant` | src/noyra/capability/store.py:32-68 | A grant is stored exactly for an operator's proposal without an approval pending whose scope holds some resource of its kind, with side effects enabled for the kinds that act on the world. |
| `Capability.CapabilityStore.Revoke` | src/noyra/capability/store.py:70-94 | Succeeds exactly for an operator with a reason on a stored grant of the subject, unless the grant is revoked already and its row corrupt; deactivates the row, and changes nothing the second time. |
| `Capability.CapabilityStore.Use` | src/noyra/capability/store.py:96-142 | Charges exactly the oldest grant that permits the request, before its expiry and for no action of another subject, and adds exactly that use; it then passes `revalidate_use`. A corrupt row that comes first is an integrity error, everything else a denial, and a refusal changes nothing. |
| `Capability.CapabilityStore.Allows` | src/noyra/capability/store.py:144-172 | Says yes exactly when `use` without an action would succeed in the same state, and no only if no grant permits the request. |
| `Capability.ValidScopeIff` | src/noyra/capability/store.py:316-376 | A scope is valid for a kind exactly if some resource of that kind lies in it and acting kinds enable side effects. |
| `Capability.StillAuthorizesIff` | src/noyra/capability/store.py:174-201 | `revalidate_use` is the rule on an intact row with no use counted. |
| `Circuit.InvHolds` | src/noyra/autonomy/loop.py:278-346 | Over every run with crashes, an open circuit has reached the threshold and has a retry time. |
| `Circuit.FailureReopens` | src/noyra/autonomy/loop.py:316-346 | After an opening, every failure before the next success opens the circuit again with a fresh retry time. |
| `Circuit.NoEarlyTick` | src/noyra/autonomy/loop.py:278-303 | The first tick body after an opening failure does not start before its cooldown is over, whatever restarts lie between. |
| `Circuit.ClosedAboveThreshold` | src/noyra/autonomy/loop.py:297-303 | For every threshold there is a run from the fresh row, with a crash in the half-open tick, that ends closed with the failures at the threshold. |
| `Circuit.ClosedAboveThresholdIff` | src/noyra/autonomy/loop.py:278-346 | Over every run from the fresh row, the row is closed at or above the threshold if and only if the last outcome was an opening failure and at least two tick bodies have started since. |
| `Circuit.Breaker.BeginTick` | src/noyra/autonomy/loop.py:278-303 | A tick starts unless the circuit is open with a later retry time, and an open circuit becomes half open. |
| `Circuit.Breaker.RecordFailure` | src/noyra/autonomy/loop.py:316-346 | Opens the circuit with a retry time exactly from the threshold on, by a count that a success sets back to zero. |
| `Circuit.Breaker.RecordSuccess` | src/noyra/autonomy/loop.py:305-314 | Sets the count to zero, closes the circuit and drops the retry time. |
| `Circuit.FailuresAreCounted` | src/noyra/autonomy/loop.py:305-346 | Over every run with crashes, the stored count is the number of failures since the last success. |
| `Circuit.OpensIff` | src/noyra/autonomy/loop.py:316-346 | Over every run, a failure opens the circuit until its cooldown is over if and only if it is at least the threshold-th since the last success. |
| `Circuit.StartsIff` | src/noyra/autonomy/loop.py:278-303 | Over every run, a tick is refused if and only if the last outcome opened the circuit, no body has started since, and its cooldown is not over. |
| `Backoff.SaturationIsLeast` | src/noyra/autonomy/loop.py:249-249 | The saturation exponent is the least at which doubling reaches the ratio of maximum and base. |
| `Backoff.SaturatedIsExact` | src/noyra/autonomy/loop.py:244-251 | The saturated interval is `min(maximum, base * 2^(failures - 1))` for every failure count, also with the maximum below the base. |
| `Backoff.IntervalGrows` | src/noyra/autonomy/loop.py:249-251 | More failures never shorten the wait, and it never exceeds the maximum. |
| `Backoff.IntervalDoubles` | src/noyra/autonomy/loop.py:244-251 | The first failure waits the base, each further one twice as long, never more than the maximum. |
| `SleepConflict.LogAlternates` | src/noyra/autonomy/loop.py:139-229 | Over all ticks and restarts in which blocked events can be appended, blocked and cleared alternate, blocked first, and memory agrees with the log. |
| `SleepConflict.ClearAlternatesIff` | src/noyra/autonomy/loop.py:217-229 | One clear keeps the alternation exactly when a conflict remembered in memory is in the log. |
| `SleepConflict.AlternatesIff` | src/noyra/autonomy/loop.py:139-229 | Over every sequence of ticks, restarts and failing appends, the log alternates if and only if no clear was logged for a conflict whose blocked event had been lost. |
| `SleepConflict.LostBlockedBreaksAlternation` | src/noyra/autonomy/loop.py:149-163 | A blocked event that could not be appended is followed by a cleared event with nothing to clear. |
| `SleepConflict.DeadlineRunsFromLastBlocked` | src/noyra/autonomy/loop.py:139-215 | After any ticks and restarts, the measured time is the time since the last unmatched blocked event, plus less than a millisecond. |
| `SleepConflict.RestartKeepsElapsed` | src/noyra/autonomy/loop.py:201-215 | However often the process restarts while a conflict goes on, no elapsed time is given back. |
| `SleepConflict.ConflictTracker.HandleConflict` | src/noyra/autonomy/loop.py:139-199 | A conflict is new if neither memory nor the end of the log has one; then it starts now and is logged, or that raises; otherwise it started where memory, or else the stored event, says. A sleep is requested if and only if it is possible, noticing did not raise and the clear could be logged; it pauses exactly from the deadline on. |
| `SleepConflict.ConflictTracker.Clear` | src/noyra/autonomy/loop.py:217-229 | Logs a clear exactly if a conflict is remembered or logged; if that cannot be written, nothing is forgotten. |
| `Sequences.DedupKeepsEachOnce` | src/noyra/cognition/consciousness.py:198-201 | Removing repetitions keeps every element once and adds none. |
| `Sequences.DedupKeepsOrder` | src/noyra/cognition/consciousness.py:198-201 | The elements kept are in the order in which they first occur. |
| `Text.SpaceIff` | src/noyra/cognition/consciousness.py:176-176 | The characters that make a text blank, one by one, as `str.isspace` has them. |
| `Text.BreakIff` | src/noyra/deployment_setup.py:104-104 | The characters after which a line ends, one by one, as `str.splitlines` has them. |
| `Frames.HistoryIsTheQuery` | src/noyra/cognition/consciousness.py:254-259 | The modelled query yields exactly the subject's rows, as often as stored, in sequence order. |
| `Frames.LastIsNewest` | src/noyra/cognition/consciousness.py:181-188 | The row an append continues has the largest sequence number of its subject, and there is none only if the subject has no row. |
| `Frames.ChainedIff` | src/noyra/cognition/consciousness.py:254-268 | A history verifies if and only if its numbers count from 1, every hash is that of its own columns and lists, and every row names the hash of the row before it, the first one none. |
| `Frames.AcceptableIff` | src/noyra/cognition/consciousness.py:176-179 | A request is accepted exactly if workflow and reason are not blank and an attention id is given exactly when the attention type is not `none`. |
| `Frames.AppendKeepsVerdicts` | src/noyra/cognition/consciousness.py:181-240 | Appending to any table, corrupt ones included, leaves every subject's verdict as it was. |
| `Frames.EveryHistoryVerifies` | src/noyra/cognition/consciousness.py:159-268 | Whatever the subjects append in whatever order, every history verifies, with one frame per accepted call. |
| `Frames.NewestHashDeterminesHistory` | src/noyra/cognition/consciousness.py:260-268 | Two verified histories with the same last hash have the same length and the same payload at every sequence number. |
| `Frames.SameHashSameFrame` | src/noyra/cognition/consciousness.py:347-402 | The hash a row must carry covers every column but the frame id, the link to its predecessor included. |
| `Frames.RewrittenHistoryIsRefused` | src/noyra/cognition/consciousness.py:254-268 | With the newest hash kept, a changed history verifies if and only if at most frame ids changed. |
| `Frames.FrameStore.Append` | src/noyra/cognition/consciousness.py:159-243 | Refused requests change nothing; others add one row that holds every field of the request, its four lists without repetitions and a hash over all of it, with the number after the newest row of the subject and that row's hash, or number 1 and none; no verdict changes. |
| `Frames.FrameStore.Latest` | src/noyra/cognition/consciousness.py:245-252 | Returns the newest row exactly if its hash covers it. |
| `Frames.FrameStore.VerifyIntegrity` | src/noyra/cognition/consciousness.py:254-268 | The running hash accepts exactly the gap-free, intact chains and reports their length. |
| `Workflow.QueryIsOrdered` | src/noyra/autonomy/workflow.py:144-148 | The modelled query yields exactly the subject's rows in the order of workflow and version. |
| `Workflow.NewestHasTheLargestVersion` | src/noyra/autonomy/workflow.py:64-68 | The newest checkpoint is a row of the workflow with the largest version. |
| `Workflow.AllowedIff` | src/noyra/autonomy/workflow.py:33-40 | The transitions, pair by pair: a first checkpoint is running, a completed workflow is over, a failed one only starts again. |
| `Workflow.LandsIff` | src/noyra/autonomy/workflow.py:55-77 | A call is written if and only if its texts are not blank, its status is known, its state has at most 1,000,000 characters, and the newest checkpoint, if any, is sound, of the same subject and kind, and may be followed by it. |
| `Workflow.ChainIff` | src/noyra/autonomy/workflow.py:153-172 | A workflow is legal exactly if each row is intact, numbered by its place, the first running, and each other one an allowed transition of the same kind and not earlier. |
| `Workflow.AcceptsIff` | src/noyra/autonomy/workflow.py:129-148 | A subject is accepted if and only if it is not blank, nobody else has a row in a workflow of its own, and all its workflows are legal. |
| `Workflow.WriterAndReaderAgree` | src/noyra/autonomy/workflow.py:45-174 | After any calls by any subjects, the verifier accepts every subject if and only if no accepted call was stamped before the newest checkpoint of its workflow. |
| `Workflow.SteadyClockIsTimely` | src/noyra/autonomy/workflow.py:62-62 | A clock that never goes back satisfies that condition. |
| `Workflow.EarlyCallIsRefused` | src/noyra/autonomy/workflow.py:159-172 | A call stamped earlier than the newest checkpoint is written, and from then on its subject is refused. |
| `Workflow.ClockSetBack` | src/noyra/autonomy/workflow.py:159-172 | A concrete pair of calls with this effect. |
| `Workflow.QueryCountsCalls` | src/noyra/autonomy/workflow.py:174-174 | The reported number of rows is the number of accepted calls of the subject. |
| `Workflow.AcceptedHistoryIsWritable` | src/noyra/autonomy/workflow.py:129-174 | Every history the verifier accepts, in any table, with states within the size limit, is rebuilt exactly by the checkpoint calls read off its rows. |
| `Workflow.VerifyRows` | src/noyra/autonomy/workflow.py:149-174 | One pass with one remembered row per workflow accepts exactly the rows whose every workflow is legal. |
| `Workflow.WorkflowStore.Checkpoint` | src/noyra/autonomy/workflow.py:45-99 | Succeeds exactly for well-formed, permitted calls and adds one intact row that holds the call field by field, with version 1 or the one after the newest; anything else changes nothing. |
| `Workflow.WorkflowStore.Resume` | src/noyra/autonomy/workflow.py:112-123 | Is a checkpoint to running with the newest kind and the next version, never on a missing, corrupt, completed or foreign workflow. |
| `Workflow.WorkflowStore.VerifyIntegrity` | src/noyra/autonomy/workflow.py:125-174 | Accepts exactly nonblank subjects whose workflows are legal and cross no subject boundary, and counts their rows. |
| `LogRotation.SplitOfUnlines` | scripts/noyra-soak-collector.py:694-709 | Splitting what was joined gives the lines back. |
| `LogRotation.SplitAt` | scripts/noyra-soak-collector.py:694-694 | Lines end at a line feed, at a carriage return and at both as one; text without either is one line. |
| `LogRotation.TailLines` | scripts/noyra-soak-collector.py:690-696 | Reading from any offset, also inside a CR LF pair, the lines after the first are the newest lines of the whole file. |
| `LogRotation.Cut` | scripts/noyra-soak-collector.py:697-705 | As many newest lines are kept as fit four fifths of the limit, at least one, and one more would not fit. |
| `LogRotation.RotationKeepsMost` | scripts/noyra-soak-collector.py:690-709 | A rotated file without carriage returns is exactly the longest run of newest lines that fits four fifths of the limit, or the last line alone. |
| `LogRotation.AppendIsSoundIff` | scripts/noyra-soak-collector.py:661-709 | For every file, the result is within the limit and holds exactly the newest whole lines, the last one included, if and only if the last line fits the limit by itself. |
| `LogRotation.TerminatedGainsOneLine` | scripts/noyra-soak-collector.py:667-684 | On a file that ended in a line break the last line is the appended one. |
| `LogRotation.UnterminatedFileLosesLine` | scripts/noyra-soak-collector.py:686-709 | A file of one overlong unterminated line is rotated into an empty line. |
| `LogRotation.LogHoldsNewestLines` | scripts/noyra-soak-collector.py:661-709 | However many snapshots are appended to a new log, it stays within its limit and holds exactly the newest of all accepted lines. |
| `LogRotation.KeepNewest` | scripts/noyra-soak-collector.py:697-705 | The loop over the reversed lines collects the chosen lines. |
| `LogRotation.SnapshotLog.Append` | scripts/noyra-soak-collector.py:661-709 | Refuses limits outside 1,024 to 100,000,000 and overlong lines without a change; a file that still fits is only appended to; otherwise it is the rotated one. |
| `GitBatch.ReadsIffFrames` | scripts/public-file-manifest.py:103-122 | The reader accepts a response, with contents holding any bytes, if and only if it is exactly one frame per object, and recovers those contents. |
| `GitBatch.FrameIsRead` | scripts/public-file-manifest.py:109-120 | A frame at the offset is read back whatever line feeds its content holds. |
| `GitBatch.ReadOneReadsFrame` | scripts/public-file-manifest.py:109-120 | A successful turn consumed exactly one frame. |
| `GitBatch.ContentsAreUnique` | scripts/public-file-manifest.py:103-122 | A response can be told apart into frames with one outcome only. |
| `GitBatch.GitHeaderIsHeader` | scripts/public-file-manifest.py:110-113 | The header line Git writes is one the reader accepts, with the size it announces. |
| `GitBatch.HeaderIff` | scripts/public-file-manifest.py:109-116 | A line is taken for the header of a content if and only if it is ASCII and consists of the object, `blob` and a number that is the length of the content, with white space between. |
| `GitBatch.ReadBlobs` | scripts/public-file-manifest.py:106-122 | The loop gives each object its content, or fails exactly if the response cannot be read. |
| `GitBatch.Read` | scripts/public-file-manifest.py:93-123 | Every requested path gets the content of its object; missing or irregular paths and malformed responses are errors. |
| `PathTree.UniquePaths` | scripts/public-file-manifest.py:60-78 | Accepts exactly the sorted lists of portable paths that form one tree up to case: no two files, no file and directory, no two directory spellings collide. |
| `PathTree.FoldNames` | scripts/public-file-manifest.py:61-66 | The first loop accepts exactly portable paths that differ up to case. |
| `PathTree.AddDirectories` | scripts/public-file-manifest.py:68-75 | The directory table stays consistent, or the rules are broken. |
| `PathTree.SublistIsOneTree` | scripts/public-file-manifest.py:60-78 | Leaving files out of an accepted list keeps it acceptable. |
| `Manifest.EntriesReadBack` | scripts/public-file-manifest.py:162-172 | The generated manifest has the required line format and reads back as its rows. |
| `Manifest.ReadEntries` | scripts/public-file-manifest.py:170-178 | The loop records every row's digest, or some row is malformed or repeated. |
| `Manifest.Check` | scripts/public-file-manifest.py:169-198 | On a reviewed inventory the check accepts exactly the generated manifest. |
| `EnvText.TargetIsDeclared` | src/noyra/deployment_setup.py:106-135 | The expression that finds a line to update and the one that parses it agree on NOYRA variables. |
| `EnvText.EntryIff` | src/noyra/deployment_setup.py:106-114 | The scanner matches what the parser's expression does: white space, perhaps `export` and white space, a name, white space, an equals sign and the rest, and finds that name and rest; any other line is kept. |
| `EnvText.TargetIff` | src/noyra/deployment_setup.py:135-136 | The updater finds a line exactly if it is such an assignment to a NOYRA variable. |
| `EnvText.TrimmedIs` | src/noyra/deployment_setup.py:106-108 | A value is read without the white space around it. |
| `EnvText.UnquotedIs` | src/noyra/deployment_setup.py:109-111 | One pair of equal quotes around a value is dropped, and nothing else. |
| `EnvText.WrittenIsRead` | src/noyra/deployment_setup.py:136-140 | A written line is found and parsed as the variable and value it was written for. |
| `EnvText.LinesOfJoin` | src/noyra/deployment_setup.py:104-105 | Splitting undoes joining for every sequence of lines that splitting can yield, unusual breaks included. |
| `EnvText.SplitIsFormed` | src/noyra/deployment_setup.py:104-105 | Every text splits into such lines: no break inside a body, only the last line open, no CR LF pair torn apart. |
| `EnvText.CountOfJoin` | src/noyra/deployment_setup.py:121-140 | Joining loses exactly one line for every line but the last that nothing closes. |
| `EnvFile.UpdateMeansOverwrite` | src/noyra/deployment_setup.py:101-153 | For every text: parsing the updated text gives the parsed entries with every requested value wherever its variable was assigned, all others in place, and the missing variables after them, if and only if no value holds a line break, no updated line but the last ends in an unusual line break and, if a key is missing, a last line that is not updated does not end in one. |
| `EnvFile.RequestedIs` | src/noyra/deployment_setup.py:101-153 | What is meant by that, entry by entry: an assignment to a requested NOYRA variable gets the requested value, or an empty one for none, every other entry is kept, and those after them are requested NOYRA variables assigned nowhere. |
| `EnvFile.UpdatedLineIs` | src/noyra/deployment_setup.py:135-140 | An updated line is its indentation, the variable, an equals sign and the requested value, with the ending it had. |
| `EnvFile.OtherLineIsKept` | src/noyra/deployment_setup.py:141-142 | A line that assigns nothing is kept. |
| `EnvFile.MissingIff` | src/noyra/deployment_setup.py:144-148 | Appended are exactly the requested keys that start with `NOYRA_` and were not found. |
| `EnvFile.MissingInOrder` | src/noyra/deployment_setup.py:144-148 | They are appended in the order of the request. |
| `EnvFile.AppendedIs` | src/noyra/deployment_setup.py:149-153 | The rows are appended after a line break, unless the updated text is empty or ends in one; without missing keys nothing is appended. |
| `EnvFile.NewLineIs` | src/noyra/deployment_setup.py:143-143 | The line break is CR LF exactly if the text holds one. |
| `EnvFile.ParsedIsPlain` | src/noyra/deployment_setup.py:104-112 | No text parses to a value with a line break. |
| `EnvFile.ReadsBackIff` | src/noyra/deployment_setup.py:106-112 | A written value is parsed as itself exactly when it has neither white space nor quotes around it. |
| `EnvRepeat.UpdateTwiceIff` | src/noyra/deployment_setup.py:119-153 | For every text: updating twice equals updating once if and only if every requested NOYRA key is a variable name and every updated line but the last that loses an unusual line break is followed by a blank one. |
| `EnvRepeat.FixedIff` | src/noyra/deployment_setup.py:119-153 | An update leaves a text alone if and only if it would change no line and no variable is missing. |
| `EnvRepeat.LinesOfMerge` | src/noyra/deployment_setup.py:121-140 | What any lines split into once they are joined: each that nothing closes runs into the next. |
| `EnvRepeat.SwallowedLineIsLost` | src/noyra/deployment_setup.py:121-140 | A line swallowed by the first update is gone after the second. |
| `EnvRepeat.BareNoyraIsRepeated` | src/noyra/deployment_setup.py:144-152 | A concrete key that is appended again. |
| `EnvFile.VerticalTabSwallowsLine` | src/noyra/deployment_setup.py:121-140 | A line ended by a vertical tab loses it to the update, and the next line becomes part of the value. |
| `EnvFile.VerticalTabAddsEntry` | src/noyra/deployment_setup.py:149-152 | Added after a last line that ends in a vertical tab, a variable is preceded by a blank entry that was not there. |
| `EnvFile.ParseEnvFile` | src/noyra/deployment_setup.py:101-116 | The loop yields the entries of the lines. |
| `EnvFile.UpdateEnvText` | src/noyra/deployment_setup.py:119-153 | The loop, the separator and the appended rows write exactly the updated lines, for every text. |

## Left out

- Hash tampering of audit rows: the state hash `_backup_gc_run_row_state` stores beside a collection row is not modelled; the row itself is trusted, its index is not.
- `gc_plan`, `backup_gc_plan` and the policy and protection digests: the plan of an invocation is an input; only the distinctness of its backup names is required.
- Recreation of collected artifacts: outside interference may do anything to evidence files and artifacts except bring back what a pending run has already collected; the install lock is what rules that out.
- `rmtree`, file replacement and SQLite transactions are single durable steps; a half-deleted release directory is not modelled.
- Symbolic links, file permissions, owners, fsync, payload size limits and the syntax of names and hashes.
- JSON, canonical encoding, SHA-256, signing and ABI encoding: symbolic codecs, assumed injective.
- Signer: `fee_quote`, the comparison of a receipt with the chain, key handling and the HTTP server.
- RateLimiter.Limiter.AllowRequest: the clock is an integer; for readings out of order the decision is bounded from both sides, not fixed, because what was purged meanwhile depends on the other buckets; the mapping of client addresses to bucket keys is not modelled.
- Capability: path resolution, URL parsing and the `capability_uses` state hashes; a scope is the validated value.
- Backoff.SaturatedIsExact: over the reals; floating-point rounding of the logarithm is not modelled.
- Circuit and SleepConflict: the tick bodies themselves, `_advance_sleep` and the tool runner.
- Frames: `observe_result` and its comparison with the latest frame, which only decides whether to append.
- Workflow.AcceptedHistoryIsWritable: the rebuilt rows carry the same decoded state, not necessarily the same spelling of its JSON.
- Manifest.Check: decoding the stored bytes as UTF-8 is not modelled; the portability of a single path is a parameter.
- EnvFile.UpdateMeansOverwrite: not for values with a line break in the white space around them, where it depends on the text behind the written line whether the entries stay in step, nor for NOYRA keys that are not variable names.
- EnvRepeat.UpdateTwiceIff: for NOYRA keys and their values without line breaks.
- HTTP handlers, admin sessions, login limiting, webhooks, migrations, sleep engine, wallet, model calls, soak activity cursors and setup commands: plumbing, or properties that depend on engines not modelled here.
