# Starfly fabrics: a Dafny model of its state machines

Starfly is a Go service that issues, delegates, revokes and audits workload tokens across
federated fabrics. This project models eight of its state machines and proves what they
promise over every run. Each mutex-held section is one atomic step, the clock is an integer
argument, Go map iteration is an arbitrary order, and hashes are function parameters whose
injectivity is a hypothesis of the lemmas that need it.

`dafny verify dfyconfig.toml` checks everything.

## What is proved

**ECT workflow tracker** (`TaskGraph`, `AncestorSearch`, `WorkflowTracker`, `TraversalBound`).
Named workflows stay parent-closed, acyclic and temporally ordered in every run, and never see the
cycle error. In the global scope clean-up removes parents that live tasks still name, so the
comment "cycles are structurally impossible" does not hold there: it is the bounded breadth-first
search that keeps the graph acyclic. A run stays acyclic exactly when no accepted id is its own
ancestor; the search decides that exactly while new parents plus recorded links are at most 10000,
and for every larger number a run is given that the tracker accepts and that closes a cycle. Within
the bound a record is accepted exactly if its id is new, its parents are recorded and not later than it by
more than the skew, and it is not its own ancestor. Issue times stay ordered along parent links of
the global scope exactly when every accepted record fits the live tasks that already name it. A
workflow is kept by clean-up exactly as long as the record accepted last, which may be backdated,
is within the TTL.

**Signing-key rotation** (`Keyring`, `RotationActivities`, `RotationProtocol`, `RotationSaga`).
Rotation steps, retries, lost acknowledgements, signing and clock ticks interleave freely. For
every configuration, every unexpired token finds its own key published at every moment exactly
when no key removal takes the key of a live token. With a grace period of at least the longest
token lifetime, as in the defaults, only verify-failed rollbacks can do so, and no shorter grace
period has that property; the configured periods count, and their defaults where they are zero.
Such rollbacks do occur: whenever tokens live at all, a run from a fresh keyring is given that
ends in one. Signing always waits for the propagation timeout. The saga is also written as the
imperative workflow. For every way its attempts may end, its contract says which key signs and
which ids are published, and so exactly when a rotation restores the keyring and when a completed
one really retires the old key. A key that loses its rotation, such as the old one after a lost
swap acknowledgement, stays published through all later rotations.

**Revocation and federation sync** (`Revocation`, `FederationSync`). Export, import and digest
agree for every map order. After any history a subject is revoked exactly if the entry that
governs it has no expiry or one that has not passed. Over histories of revocations, imports,
clean-ups and queries, clean-up is unobservable exactly if each import fits: no unexpired entry
meets an expired one of its subject that was cleaned up on one side only. Histories without
imports always fit. After any sequence of pulls among any number of fabrics each fabric revokes
exactly the subjects of those fabrics whose knowledge reached it, hence the union once everyone
has pulled from everyone. That agreement lasts at all later times if and only if no two fabrics
started with different expiries for a subject; and under the same condition, and no weaker one, it
is reached however the pulls, and the clean-up and export inside each, are spread over time.

**Duplicate filter and circuit breaker** (`DedupWindow`, `Inbound`, `InboundFlow`,
`RelayBreaker`). The filter remembers exactly the last L(n) of n accepted ids, with L in closed
form. In every interleaving of inbound calls each accepted event is pending or applied, as often
as it was accepted. In every interleaving of relay calls a peer is down exactly if its last five
finished attempts failed.

**Declarative convergence** (`TrustDomains`, `ConvergencePlan`, `ConvergenceApply`,
`ConvergenceTheorem`). For every plan that some map order yields, execution completes unless an
action outside trust domains fails. If a signing-key action fails nothing changes; otherwise,
whatever fails later, the live trust domains become exactly the specified ones if and only if no
wanted name was listed twice and an empty spec meets an empty boot configuration. Then planning
again yields nothing, and otherwise no number of further rounds helps.

**Audit ledger** (`Ledger`), **delegation chains** (`Delegation`), **replay windows** (`Replay`).
Appends record the caller's claims unaltered, for good; tamper evidence from any shared entry, and
which edits verification alone misses; conservation of depth and on-behalf-of lists along chains
of any length, and which roots confine the capabilities and the blast radius of all their
descendants; lazily pruned memories that agree with unpruned history, at most one live token per
nonce, and exactly when a nonce is accepted again.

Where code and comments disagree the model follows the code: besides the cycle comment above,
`sortActions` has a fifth phase (federation peers) that its comment omits and silently drops
action types it does not know. A swap that fails after losing an acknowledgement is reported as
failed although the new key is active, and one that is retried successfully after such a loss
takes the new key for the old one, so that no rotation ever removes the real old key.

## Model

| member | source | states |
|---|---|---|
| `TaskGraph.RecordClosesCycleIff` | pkg/mcp/workflow.go:109-121 | recording a new task keeps the graph acyclic if and only if its id is not already an ancestor of its parents |
| `TaskGraph.ClosedSetBlocksReach` | pkg/mcp/workflow.go:217-243 | an ancestor-closed set around the sources that lacks the target proves the target unreachable |
| `AncestorSearch.SearchSound` | pkg/mcp/workflow.go:224-231 | a hit of the search is a real ancestor of the new parents |
| `AncestorSearch.SearchComplete` | pkg/mcp/workflow.go:224-242 | with budget for the queue plus the links of unvisited tasks, a miss leaves an ancestor-closed set without the new id |
| `AncestorSearch.SearchExact` | pkg/mcp/workflow.go:217-243 | if new parents plus recorded links fit the bound, the search rejects exactly when the id is reachable |
| `AncestorSearch.CheckAcyclicity` | pkg/mcp/workflow.go:217-243 | the queue loop computes the bounded search; a rejection is justified, and none is missed within the bound |
| `WorkflowTracking.FirstMissing` | pkg/mcp/workflow.go:93-98 | none missing if and only if all parents are recorded; otherwise names an unrecorded parent |
| `WorkflowTracking.FirstLate` | pkg/mcp/workflow.go:100-107 | none late if and only if every parent was issued by the child's time plus skew; otherwise names a late one |
| `WorkflowTracking.FindMissing` | pkg/mcp/workflow.go:93-98 | the existence loop stops at the first unrecorded parent |
| `WorkflowTracking.FindLate` | pkg/mcp/workflow.go:100-107 | the ordering loop stops at the first parent issued too late |
| `WorkflowTracking.WorkflowTracker.constructor` | pkg/mcp/workflow.go:67-78 | a new tracker is empty |
| `WorkflowTracking.WorkflowTracker.RecordTask` | pkg/mcp/workflow.go:82-141 | the four checks in order decide the error; only an error-free record changes the scope, by that one task |
| `WorkflowTracking.WorkflowTracker.Cleanup` | pkg/mcp/workflow.go:177-199 | drops stale workflows whole and stale global tasks one by one; returns how many workflows went |
| `WorkflowTracking.WorkflowTracker.CleanWorkflows` | pkg/mcp/workflow.go:184-189 | keeps exactly the workflows updated since the cutoff, in any iteration order |
| `WorkflowTracking.WorkflowTracker.CleanGlobalTasks` | pkg/mcp/workflow.go:191-196 | keeps exactly the global tasks issued since the cutoff, in any iteration order |
| `WorkflowTracking.AcceptedIff` | pkg/mcp/workflow.go:82-121 | within the traversal bound a record is accepted if and only if its id is new, every parent is recorded and no later than it plus the skew, and it is not its own ancestor; the cycle error if only the last fails |
| `WorkflowTracking.UnknownParentIff` | pkg/mcp/workflow.go:88-98 | the duplicate error if and only if the id is recorded; else the missing-parent error, naming the first, if and only if one is missing |
| `WorkflowTracking.LateParentIff` | pkg/mcp/workflow.go:100-107 | the ordering error, naming the first parent later than the child plus the skew, if and only if all are recorded and one is late |
| `WorkflowTracking.RecordChanges` | pkg/mcp/workflow.go:117-138 | a rejected record changes nothing; an accepted one adds its task to its scope, dates the workflow, and touches no other scope |
| `WorkflowTracking.GlobalTaskKeptIff` | pkg/mcp/workflow.go:191-196 | over every run a clean-up keeps a global task, unaltered, if and only if it was issued within the TTL |
| `WorkflowTracking.SoundAfterRecord` | pkg/mcp/workflow.go:88-121 | an admitted task keeps a workflow parent-closed, acyclic and temporally ordered |
| `WorkflowTracking.NamedWorkflowsStaySound` | pkg/mcp/workflow.go:82-199 | over every run of records and clean-ups each named workflow stays parent-closed, acyclic and ordered |
| `WorkflowTracking.NoCycleErrorInNamedWorkflow` | pkg/mcp/workflow.go:109-115 | after any run the cycle error is never returned for a named workflow |
| `WorkflowTracking.AncestorIssueTimeBound` | pkg/mcp/workflow.go:100-107 | along n parent links of a named workflow issue times run backwards by at most n skews |
| `WorkflowTracking.GlobalStepAcyclicIff` | pkg/mcp/workflow.go:113-137 | a global step keeps the graph acyclic exactly when it records no id that is its own ancestor |
| `WorkflowTracking.GlobalAcyclicIff` | pkg/mcp/workflow.go:82-199 | every state of a run is acyclic if and only if no accepted global record is its own ancestor |
| `WorkflowTracking.GlobalScopeStaysAcyclic` | pkg/mcp/workflow.go:192-243 | while every search fits the bound no run closes a cycle, ids deleted and recorded again included |
| `WorkflowTracking.CleanupFollowsLastRecord` | pkg/mcp/workflow.go:124-189 | a clean-up keeps a workflow, with all its tasks, exactly if the record accepted last in it was issued within the TTL, over every run |
| `WorkflowTracking.UpdatedAtIsLastIssue` | pkg/mcp/workflow.go:124-137 | over every run a workflow's update time is the issue time of the record accepted last |
| `WorkflowTracking.BackdatedRecordEndsWorkflow` | pkg/mcp/workflow.go:124-189 | that time can move backwards: a backdated record makes clean-up drop a workflow with a recent task |
| `WorkflowTracking.GlobalStepOrderedIff` | pkg/mcp/workflow.go:100-137 | a global step keeps parents ordered up to the skew exactly when the record fits the live tasks that already name it |
| `WorkflowTracking.GlobalOrderedIff` | pkg/mcp/workflow.go:82-199 | every state of a run is temporally ordered in the global scope if and only if every accepted record fits its surviving children |
| `WorkflowTracking.GlobalIssueTimeBound` | pkg/mcp/workflow.go:100-107 | in such runs n links between live global tasks cost at most n skews |
| `TraversalBound.TraversalBoundIsTight` | pkg/mcp/workflow.go:23-24 | for every n a run in which closing a cycle over n + 1 links is rejected if n + 1 is at most 10000 and otherwise accepted |
| `TraversalBound.CycleErrorHappensInGlobalScope` | pkg/mcp/workflow.go:109-115 | a run of the global scope that does end in the cycle error |
| `TraversalBound.GlobalScopeCanReverseTime` | pkg/mcp/workflow.go:191-196 | a run after which a global task's parent is issued at any chosen time, ordered exactly if that is within the skew |
| `Keyrings.NewKeyring` | pkg/exchange/keyring.go:26-36 | refuses a key without id; otherwise that key is active and published |
| `Keyrings.Keyring.AddKey` | pkg/exchange/keyring.go:54-74 | fails without effect on key material that does not import; otherwise publishes the key and leaves the active one alone |
| `Keyrings.Keyring.ActivateKey` | pkg/exchange/keyring.go:77-87 | fails exactly on an unknown id, keeps the active key published |
| `Keyrings.Keyring.RemoveKey` | pkg/exchange/keyring.go:90-99 | refuses exactly the active key, keeps the active key published |
| `RotationProtocol.AttemptKeepsInv` | pkg/lifecycle/rotation_workflow.go:208-251 | if the grace period is at least the longest lifetime, every attempt, failing before or after its effect, keeps the rotation invariant, save a rollback that takes a live token's key |
| `RotationProtocol.UnsparingRollbackBreaks` | pkg/lifecycle/rotation_workflow.go:156-166 | a rollback that removes a key with a live token breaks continuity at once |
| `RotationProtocol.RollbackLosesToken` | pkg/lifecycle/rotation_workflow.go:156-166 | whenever some token lifetime is positive, a run from a fresh keyring that keeps continuity up to its last event, a rollback that removes the key of a live token |
| `RotationProtocol.AlwaysContinuousIff` | pkg/lifecycle/rotation_workflow.go:81-184 | continuity holds in all runs from a fresh keyring if and only if no token is ever valid |
| `RotationProtocol.ContinuityIffRemovalsSpare` | pkg/lifecycle/rotation_workflow.go:81-184 | for every configuration and interleaving every live token finds its key published throughout if and only if no removal takes the key of a live token |
| `RotationProtocol.ContinuityIff` | pkg/lifecycle/rotation_workflow.go:81-184 | with a grace period of at least the longest lifetime, in every interleaving every live token finds its key published if and only if each rollback removal finds no live token under the new key |
| `RotationProtocol.GraceIsSafeIff` | pkg/lifecycle/rotation_workflow.go:168-175 | no run from a fresh keyring whose rollbacks spare live tokens loses one's key, if and only if the configured grace period, 300 s if it is zero and none if negative, is at least both token lifetimes |
| `RotationProtocol.ShortGraceLosesToken` | pkg/exchange/engine.go:643-656 | for every shorter grace period a rollback-free run that loses a live token's key |
| `RotationProtocol.DefaultsAreSafe` | pkg/lifecycle/rotation_workflow.go:33-39 | with the shipped defaults a run keeps continuity if and only if its rollbacks spare live tokens |
| `RotationProtocol.StrandedForever` | pkg/lifecycle/rotation_workflow.go:81-251 | a published key that neither signs nor is known to the rotation under way stays published, with its material, through every later run |
| `RotationProtocol.LostSwapStrandsOldKey` | pkg/lifecycle/rotation_workflow.go:142-154 | after one lost swap acknowledgement no later run ever removes the formerly active key |
| `RotationProtocol.LostGenerationStrandsKey` | pkg/lifecycle/rotation_workflow.go:114-119 | after one lost generation acknowledgement no later run ever removes or uses the key it published |
| `RotationProtocol.SigningWaitsForPropagation` | pkg/lifecycle/rotation_workflow.go:121-154 | in every run the active key is published, and a rotated-in key signs nothing before it has been published for the propagation timeout |
| `RotationProtocol.NoEarlySignature` | pkg/lifecycle/rotation_workflow.go:85-126 | from any moment of any run at which a key is not published, no token is signed under it before the configured propagation timeout, 30 s if it is zero, has passed |
| `RotationProtocol.LifetimeByKind` | pkg/exchange/engine.go:643-656 | in runs of one kind of token every token expires within that kind's lifetime of its signing |
| `RotationProtocol.CancelStrandsKey` | pkg/lifecycle/rotation_workflow.go:121-172 | after a cancelled wait no later run removes the key it was for |
| `RotationProtocol.SmoothRotation` | pkg/lifecycle/rotation_workflow.go:81-184 | a rotation without failures ends with the old set minus the old key plus the new one, which signs, after both waits |
| `RotationProtocol.FailedGenerateOutcome` | pkg/lifecycle/rotation_workflow.go:114-119 | three generation attempts without effect change nothing |
| `RotationProtocol.FailedMintOutcome` | pkg/lifecycle/rotation_workflow.go:128-140 | for all outcomes of the attempts of a failed mint and its compensation: the new key goes exactly if a removal takes effect |
| `RotationProtocol.FailedVerifyOutcome` | pkg/lifecycle/rotation_workflow.go:156-166 | for all outcomes of the attempts of a failed verification and its rollback: full, halfway or no effect |
| `RotationProtocol.FailedSwapOutcome` | pkg/lifecycle/rotation_workflow.go:143-154 | for all outcomes of the attempts of a failed swap and its compensation: the new key stays active and published exactly if a swap acknowledgement was lost, else it goes exactly if a removal takes effect |
| `RotationSaga.ThreeAttempts` | pkg/lifecycle/rotation_workflow.go:92-99 | an activity gets through exactly if one of three attempts does |
| `RotationSaga.TryPlain` | pkg/lifecycle/rotation_workflow.go:92-99 | an activity succeeds if and only if one of its three attempts is acknowledged |
| `RotationSaga.TryGenerate` | pkg/lifecycle/rotation_workflow.go:208-217 | publishes exactly the key it reports and those of attempts whose acknowledgement was lost; existing keys and the active one stay |
| `RotationSaga.TrySwap` | pkg/lifecycle/rotation_workflow.go:220-226 | the new key is active exactly if an attempt was acknowledged or lost; the reported old key is the formerly active one exactly if none was lost before, and else the new key |
| `RotationSaga.TryVerify` | pkg/lifecycle/rotation_workflow.go:229-235 | succeeds exactly when the new key is active and an attempt gets through |
| `RotationSaga.TryRemove` | pkg/lifecycle/rotation_workflow.go:238-240 | removes the key, unless it is active, exactly if some attempt takes effect, acknowledged or not |
| `RotationSaga.TryRollback` | pkg/lifecycle/rotation_workflow.go:243-251 | reactivates the old key and removes the new one if an attempt takes effect, only reactivates if attempts stop halfway, else changes nothing |
| `RotationSaga.FinishRotation` | pkg/lifecycle/rotation_workflow.go:156-184 | which of verify failure, interruption and completion happens, and the exact keyring after each |
| `RotationSaga.SwapAndFinish` | pkg/lifecycle/rotation_workflow.go:142-184 | result, active key and key set from the swap on, for every outcome of every attempt |
| `RotationSaga.RestoresIff` | pkg/lifecycle/rotation_workflow.go:128-166 | a rotation leaves the keyring as it was if and only if no generated key was orphaned and the new key, if any, was taken back |
| `RotationSaga.RotationWorkflow` | pkg/lifecycle/rotation_workflow.go:81-184 | for every outcome of every attempt: the result, which key signs, which ids are published, the signing key among them; when the keyring is restored exactly and when the old key is really retired |
| `Revocation.LessIsLexicographic` | pkg/signals/revocation.go:134-136 | subjects are ordered byte by byte: a proper prefix or the smaller character at the first difference |
| `Revocation.LessTotal` | pkg/signals/revocation.go:134-136 | the subject order is total |
| `Revocation.SortedUnique` | pkg/signals/revocation.go:134-136 | a sorted listing is unique, so map order does not show in it |
| `Revocation.ListingDeterminesIndex` | pkg/signals/revocation.go:193-211 | indexes with one listing are equal |
| `Revocation.MergedIsUnion` | pkg/signals/revocation.go:179-186 | importing any list adds the missing subjects, each with its first listed entry, and alters no existing entry |
| `Revocation.ExportImportRoundTrip` | pkg/signals/revocation.go:121-189 | import accepts every export, yields exactly the unexpired entries in an empty index, and the export carries the digest of the cleaned index |
| `Revocation.ImportIsIdempotent` | pkg/signals/revocation.go:158-189 | existing entries survive the import of any list, and importing it twice is importing it once |
| `Revocation.MatchingDigestsNeedNoImport` | pkg/federation/sync.go:230-237 | with an injective hash, equal digests mean the skipped import would have changed nothing |
| `Revocation.ImportAcceptsIff` | pkg/signals/revocation.go:162-178 | a snapshot is accepted if and only if it parses and carries the digest of its entries |
| `Revocation.RevokedWhileInForce` | pkg/signals/revocation.go:36-88 | a revocation is answered, with its own data, exactly up to its expiry or for ever without one; other subjects are unaffected |
| `Revocation.RevokedIffGoverned` | pkg/signals/revocation.go:36-189 | after any history of revocations, imports and clean-ups a subject is revoked if and only if the entry that governs it is in force |
| `Revocation.ImportStepIff` | pkg/signals/revocation.go:158-189 | an import keeps two indexes that answer alike indistinguishable if and only if each unexpired entry first listed for its subject finds it in both or in neither |
| `Revocation.CleanupUnobservableIff` | pkg/signals/revocation.go:36-189 | over every history with imports and a non-decreasing clock no question ever tells the index from one that never cleans up if and only if each import fits |
| `Revocation.FittingImportsAnswerAlike` | pkg/signals/revocation.go:36-189 | the answers of such a history are those of an index that never cleans up |
| `Revocation.CleanupIsUnobservable` | pkg/signals/revocation.go:36-109 | so are the answers of every history without imports |
| `Revocation.CleanupBeforeImportIff` | pkg/federation/sync.go:176-181 | a clean-up right before an import makes no difference if and only if no unexpired entry first listed for its subject meets an expired one |
| `Revocation.RevocationIndex.Revoke` | pkg/signals/revocation.go:36-60 | refuses an empty subject, otherwise sets that subject's entry and no other |
| `Revocation.RevocationIndex.IsRevoked` | pkg/signals/revocation.go:65-88 | answers with an entry exactly when the subject is listed and unexpired |
| `Revocation.RevocationIndex.Cleanup` | pkg/signals/revocation.go:91-109 | keeps exactly the unexpired entries and counts the rest |
| `Revocation.RevocationIndex.Collect` | pkg/signals/revocation.go:125-136 | collecting in any map order and sorting gives the one listing |
| `Revocation.RevocationIndex.Export` | pkg/signals/revocation.go:121-156 | the listing of the unexpired entries, its length and its digest |
| `Revocation.RevocationIndex.Hash` | pkg/signals/revocation.go:193-211 | the digest of the listing of all entries |
| `Revocation.RevocationIndex.Import` | pkg/signals/revocation.go:162-189 | rejects unparsable data and a wrong digest without effect, otherwise merges keeping existing entries |
| `FederationSync.PullIsUnion` | pkg/federation/sync.go:173-301 | a pull yields the peer's active entries overridden by the puller's own |
| `FederationSync.ExpiredEntryBlocksImport` | pkg/federation/sync.go:176-181 | without the preceding clean-up an expired local entry keeps its subject unrevoked; with it the subject is revoked exactly if the peer revokes it |
| `FederationSync.TimedPullIsUnion` | pkg/federation/sync.go:173-289 | a pull yields the entries the peer exports overridden by the puller's own that outlived its clean-up, each at its own time |
| `FederationSync.TimedPullMissesIff` | pkg/federation/sync.go:176-289 | a subject the peer revokes is missed if and only if the puller's own entry outlived the clean-up and has expired since |
| `FederationSync.InformationFlow` | pkg/federation/sync.go:173-301 | after any pulls in any order a fabric revokes exactly the subjects of the fabrics whose knowledge reached it |
| `FederationSync.FederationConverges` | pkg/federation/sync.go:173-301 | once everyone pulled from everyone all revoke exactly the union |
| `FederationSync.OwnEntryIsKept` | pkg/signals/revocation.go:179-186 | a fabric keeps its own active entries through any sequence of pulls |
| `FederationSync.AgreementLastsIff` | pkg/federation/sync.go:173-301 | once everyone pulled from everyone, the fabrics revoke the same subjects at all later times if and only if no two started with different expiries for a subject |
| `FederationSync.EntriesEqualIff` | pkg/federation/sync.go:239-301 | their active entries are equal, then and for ever, if and only if no two started with different entries for a subject |
| `FederationSync.TimedInformationFlow` | pkg/federation/sync.go:173-301 | with equal expiries the information flow is exact however pulls are spread over time |
| `FederationSync.ConvergesHoweverTimedIff` | pkg/federation/sync.go:173-301 | pulls of everyone from everyone converge under every timing if and only if no two fabrics started with different expiries for a subject |
| `FederationSync.Syncer.SyncWithPeer` | pkg/federation/sync.go:173-301 | which replies lead to in-sync, reconciled or failed, the index after each, and that counters account for every call |
| `FederationSync.Syncer.MergeExport` | pkg/federation/sync.go:255-289 | merges the export unless fetching or importing fails |
| `FederationSync.PullFromPeer` | pkg/federation/sync.go:173-301 | one cycle against a live peer is exactly one pull; it fails only if the digests differ and the export exceeds the size limit, and then only cleans up |
| `DedupWindow.WindowStep` | pkg/federation/relay.go:181-186 | one acceptance grows the window by one and past capacity drops a tenth, at least one |
| `DedupWindow.WindowBounds` | pkg/federation/relay.go:328-344 | never more than M ids, and always at least the last min(n, M + 1 - E) |
| `DedupWindow.WindowBoundsAttained` | pkg/federation/relay.go:328-344 | both bounds are attained, M before the first eviction and M + 1 - E after it |
| `DedupWindow.AcceptKeepsWindow` | pkg/federation/inbound.go:212-216 | accepting an unknown id keeps the remembered ids the duplicate-free end of all accepted ones |
| `DedupWindow.RunRemembersWindow` | pkg/federation/relay.go:168-187 | over every run the remembered ids are exactly the last L(n) of n accepted ones |
| `DedupWindow.RedeliveryIsSuppressed` | pkg/federation/inbound.go:199-218 | an id among the last M + 1 - E accepted ones is remembered |
| `DedupWindow.NineTenthsAreRemembered` | pkg/federation/relay.go:328-344 | an id among the last nine tenths of the capacity is remembered |
| `DedupWindow.EvictionDropsATenth` | pkg/federation/relay.go:328-336 | the first acceptance past capacity leaves all but a tenth, or all but one below twenty |
| `DedupWindow.Filter.Offer` | pkg/federation/relay.go:171-187 | lets through exactly empty and unremembered ids and records the latter |
| `DedupWindow.Filter.Record` | pkg/federation/inbound.go:212-216 | recording an unknown id keeps the remembered window, set and order list in step |
| `DedupWindow.Filter.Insert` | pkg/federation/inbound.go:212-216 | set and order list stay equal after insertion and eviction |
| `DedupWindow.Filter.EvictOldest` | pkg/federation/relay.go:328-344 | forgets exactly the oldest tenth, at least one |
| `Inbound.RefusalMeans` | pkg/federation/inbound.go:150-197 | when each refusal is given: a signal passes if and only if it is authentic, trusted, named and current |
| `Inbound.InboundHandler.ReceiveRevocation` | pkg/federation/inbound.go:150-272 | the checks in order decide refusal; duplicates and refusals leave the index alone; otherwise an authentic signal of a trusted peer revokes its subject now, and only it, until its own expiry or for a day, if an index is configured |
| `Inbound.InboundHandler.Admit` | pkg/federation/inbound.go:150-218 | the part up to the dedup block: the verdict, and the ids remembered and accepted after it |
| `Inbound.InboundHandler.Apply` | pkg/federation/inbound.go:220-261 | the part after it: exactly the signal's subject is revoked, with the expiry given at admission |
| `InboundFlow.FlowInvariant` | pkg/federation/inbound.go:199-261 | in every interleaving of calls the accepted ids are those pending and those applied, with multiplicity, and each subject has the entry applied last |
| `InboundFlow.RedeliveryStartsNothing` | pkg/federation/inbound.go:199-218 | redelivery inside the guaranteed window changes nothing, even while the first delivery is pending |
| `Inbound.Redeliver` | pkg/federation/inbound.go:199-218 | redelivery inside the guaranteed window never touches the index |
| `RelayBreaker.BreakerInvariant` | pkg/federation/relay.go:194-248 | in every interleaving status matches the error counter, and relayed plus errored equals finished |
| `RelayBreaker.DownIffLastFiveFailed` | pkg/federation/relay.go:223-245 | in every interleaving the counters are those of the finished attempts, the error counter is the number of failures they end with, and the peer is down exactly if the last five failed |
| `RelayBreaker.DownIsForever` | pkg/federation/relay.go:196-208 | a down peer with nothing in flight is never attempted again |
| `RelayBreaker.DownOnlyDrains` | pkg/federation/relay.go:223-245 | until a success a down peer starts nothing and its error run grows only by attempts in flight |
| `RelayBreaker.LateSuccessRevives` | pkg/federation/relay.go:239-244 | a success still in flight reopens a down peer |
| `RelayBreaker.PeerSignalState.Check` | pkg/federation/relay.go:196-208 | an attempt starts exactly when the peer is not down |
| `RelayBreaker.PeerSignalState.Complete` | pkg/federation/relay.go:223-245 | the counters and status after a finished attempt |
| `TrustDomains.UpsertByName` | pkg/operator/inprocess.go:229-240 | an upsert replaces the first entry of its name or appends, other names keep theirs |
| `TrustDomains.WithoutByName` | pkg/operator/inprocess.go:246-256 | a removal drops all entries of its name and no other |
| `TrustDomains.Upsert` | pkg/operator/inprocess.go:229-240 | the loop computes the upsert |
| `TrustDomains.Remove` | pkg/operator/inprocess.go:246-259 | the loop computes the removal and tells whether the name was there |
| `ConvergencePlan.MapByName` | pkg/soul/upgrade.go:98-110 | the lookup map holds the last entry of each name |
| `ConvergencePlan.PlanUpserts` | pkg/soul/upgrade.go:112-128 | each missing or changed name once, as add or update, in any order |
| `ConvergencePlan.PlanRemovals` | pkg/soul/upgrade.go:130-139 | each unwanted name once, in any order |
| `ConvergencePlan.ConvergeTrustDomains` | pkg/soul/upgrade.go:97-140 | needed upserts, then needed removals, each once, for every iteration order |
| `ConvergencePlan.SortActions` | pkg/operator/applier.go:57-100 | the five passes compute the phase order |
| `ConvergencePlan.OrderingKeepsListedActions` | pkg/operator/applier.go:57-100 | every known action runs as often as planned; exactly unknown types are dropped |
| `ConvergencePlan.PlanSays` | pkg/soul/upgrade.go:97-140 | a name is added if only the spec has it, removed if only the live list has it, updated if both have it with different last entries, and else left alone |
| `ConvergencePlan.OrderingIsByType` | pkg/operator/applier.go:57-100 | by action type: keys, then trust domains, streams, peers, and revocations last |
| `ConvergencePlan.OrderingIsByPhase` | pkg/operator/applier.go:51-56 | keys before domains before streams before peers before revocations |
| `ConvergenceApply.LiveList` | pkg/operator/inprocess.go:280-296 | the live list is the keeper's, or else the boot entries field by field |
| `ConvergenceApply.DesiredIsFirst` | pkg/operator/inprocess.go:265-278 | the desired entry of a name is the first the spec lists |
| `ConvergenceApply.AppliesIff` | pkg/operator/inprocess.go:224-263 | an upsert fails exactly if the spec lacks its target, a removal exactly if the live list does; a failure or a missing keeper changes nothing |
| `ConvergenceApply.RunUpserts` | pkg/operator/inprocess.go:224-244 | planned upserts all succeed, never empty the list, and act on their names only |
| `ConvergenceApply.RunRemovals` | pkg/operator/inprocess.go:246-263 | while another name stays, removals all succeed, never empty the list, and take out exactly their names |
| `ConvergenceApply.RunFullRemoval` | pkg/operator/inprocess.go:280-296 | removing every name empties the keeper's list and the boot configuration shows again |
| `ConvergenceTheorem.ConvergenceOutcome` | pkg/operator/applier.go:16-49 | a plan completes exactly if no other action fails, and a non-empty spec never empties the list midway; if a key action fails nothing changes, else the result is the spec if and only if CanConverge held |
| `ConvergenceTheorem.RoundKeepsCanConverge` | pkg/operator/inprocess.go:224-263 | a round, failed or not, neither creates nor removes an obstacle to convergence |
| `ConvergenceTheorem.RepeatedRounds` | pkg/operator/controller.go:53-106 | once some of any number of rounds gets to the domains the list is the spec's if and only if CanConverge held at the start; before that nothing changes |
| `ConvergenceTheorem.ConvergedIsFixpoint` | pkg/soul/upgrade.go:97-144 | once the list is the spec, planning again yields no trust-domain action |
| `ConvergenceTheorem.InProcessConnection.ApplyAction` | pkg/operator/inprocess.go:147-196 | the success and the new domain list of each action |
| `ConvergenceTheorem.InProcessConnection.ExecutePlan` | pkg/operator/applier.go:16-49 | applies the ordered plan up to the first failure and counts |
| `ConvergenceTheorem.InProcessConnection.Reconcile` | pkg/operator/controller.go:53-106 | a whole round, whichever other actions fail, unless a key action does, ends with exactly the spec's domains if and only if CanConverge held before it |
| `Ledger.SharedEntryFixesHistory` | pkg/audit/ledger.go:132-160 | verified ledgers sharing an entry share its position and everything before it |
| `Ledger.LastEntryFixesLedger` | pkg/audit/ledger.go:132-160 | verified ledgers with the same last entry are identical |
| `Ledger.TamperingIsCaught` | pkg/audit/ledger.go:129-160 | a changed ledger that keeps the head digest fails verification |
| `Ledger.EditPassesIff` | pkg/audit/ledger.go:132-160 | verification misses the replacement of an entry if and only if it is the last one and keeps sequence number and link |
| `Ledger.TruncationPasses` | pkg/audit/ledger.go:132-160 | verification misses the loss of the end |
| `Ledger.AppendAcceptedIff` | pkg/audit/ledger.go:68-101 | an append is accepted if and only if no entry has its id and what it records can be hashed; then exactly that entry, with all claims of the caller, is added |
| `Ledger.AppendedIsFound` | pkg/audit/ledger.go:68-113 | what was appended is found under its id, as recorded then, after whatever is appended later |
| `Ledger.AppendKeepsInv` | pkg/audit/ledger.go:68-101 | an append keeps the chain verified, the numbering gap-free and the index exact |
| `Ledger.RunsVerify` | pkg/audit/ledger.go:68-101 | every run of appends passes verification and only extends history |
| `Ledger.ECTLedger.Append` | pkg/audit/ledger.go:68-101 | a duplicate id or failed hash leaves the ledger unchanged; otherwise one stamped, chained entry is added |
| `Ledger.ECTLedger.Lookup` | pkg/audit/ledger.go:104-113 | finds the entry of an id exactly when there is one |
| `Ledger.ECTLedger.Verify` | pkg/audit/ledger.go:132-160 | accepts exactly intact chains and otherwise names the first wrong position |
| `Delegation.ParseBlastRadiusLevel` | pkg/exchange/delegation.go:137-147 | the level of the part before the first colon |
| `Delegation.NarrowingIsPreorder` | pkg/exchange/delegation.go:123-133 | the radius comparison is reflexive and transitive |
| `Delegation.LevelsAreOrdered` | pkg/exchange/delegation.go:108-133 | function, service, namespace, cluster or workspace, trust domain, fabric: whatever they are limited to, one is within another if and only if it ranks no higher |
| `Delegation.UnknownLevelsCompareByEquality` | pkg/exchange/delegation.go:123-133 | a radius of no known level is within another only if it is the same |
| `Delegation.GrantedIff` | pkg/exchange/delegation.go:79-106 | a delegation is granted if and only if the parent names a subject, has depth left, and covers the requested capabilities and radius; when each other refusal is given |
| `Delegation.MissingCapIsNamed` | pkg/exchange/delegation.go:85-96 | the refusal names the first capability not held |
| `Delegation.WiderRadiusIsRefused` | pkg/exchange/delegation.go:98-133 | between known levels the broader one is refused and no other |
| `Delegation.FirstMissingCap` | pkg/exchange/delegation.go:86-96 | none missing if and only if every requested capability is held |
| `Delegation.ValidateDelegation` | pkg/exchange/delegation.go:79-106 | depth, capability and radius rules in order, each with its own refusal |
| `Delegation.DelegationConserves` | pkg/exchange/engine.go:700-722 | after k exchanges depth is d - k, depth plus chain length is constant, and the list names every delegator in order |
| `Delegation.ChainNamesWorkloads` | pkg/exchange/delegation.go:150-155 | each token belongs to its decision's workload, and carries its capabilities and radius, and the list is the root's, the root's subject, then the workloads that delegated further |
| `Delegation.UnrestrictedStaysUnrestricted` | pkg/exchange/engine.go:702-713 | a chain from a token without depth never gains one |
| `Delegation.NarrowingIsTransitive` | pkg/exchange/delegation.go:85-103 | while every delegating token of a chain carries capabilities they never widen, and likewise the radius |
| `Delegation.CapsConfinedIff` | pkg/exchange/delegation.go:79-96 | over chains of any length, all descendants stay within the root's capabilities if and only if the root cannot delegate, or can only once and carries some |
| `Delegation.RadiusConfinedIff` | pkg/exchange/delegation.go:79-133 | the same for the radius that descendants carry |
| `Delegation.RadiusKeptIff` | pkg/exchange/delegation.go:98-103 | descendants never lose the radius either if and only if the root cannot delegate |
| `Delegation.ChildrenConfinedIff` | pkg/exchange/delegation.go:85-96 | one exchange: a token's own children stay within a root's capabilities if and only if it carries some and they lie within the root's |
| `Delegation.ChildrenRadiusConfinedIff` | pkg/exchange/delegation.go:98-133 | one exchange: the radius that a token's own children carry is within a root's if and only if the token carries one that is |
| `Replay.OneAcceptancePerWindow` | pkg/exchange/execution.go:48-81 | two acceptances of a nonce are more than 60 s apart in every run |
| `Replay.OneLiveTokenPerNonce` | pkg/exchange/engine.go:609-656 | with lifetime plus delay at most 60 s no two tokens of one nonce are valid at once |
| `Replay.FreshNonceIsAccepted` | pkg/exchange/execution.go:60-64 | a nonce never accepted before is accepted |
| `Replay.RememberedAcceptedIff` | pkg/exchange/execution.go:52-64 | a remembered nonce is accepted exactly by a hundredth call, or one at 10000 entries, that comes more than 60 s later |
| `Replay.AcceptedAgainIff` | pkg/exchange/execution.go:48-81 | a nonce is accepted again if and only if some clean-up pass since, every hundredth call or at 10000 entries, ran more than 60 s after its last acceptance |
| `Replay.RefusalIsBounded` | pkg/exchange/execution.go:52-58 | after 60 s and another ninety-nine calls a nonce is accepted again |
| `Replay.StaleNonceMayBeRefused` | pkg/exchange/execution.go:54-62 | without further calls any nonce is refused at any later time |
| `Replay.NonceTracker.Check` | pkg/exchange/execution.go:48-65 | the answer and the memory after a call |
| `Replay.NonceTracker.CleanupLocked` | pkg/exchange/execution.go:75-81 | keeps exactly nonces at most 60 s old |
| `Replay.JtiPruningIsUnobservable` | pkg/signals/receiver.go:127-148 | for every non-decreasing clock the store answers as one that never prunes |
| `Replay.DuplicateIffSeenWithin` | pkg/signals/receiver.go:125-137 | a call is refused exactly when its id was accepted less than the TTL ago |
| `Replay.JtiStore.CheckAndMark` | pkg/signals/receiver.go:127-148 | the answer and the store after a call |
| `Replay.JtiStore.Prune` | pkg/signals/receiver.go:139-146 | keeps exactly the ids whose memory has not run out |

## Left out

- JWT, JWK, JWE, DPoP and X.509 handling: tokens are records of claims and key material is a number.
- OPA policy evaluation: a decision is an input.
- HTTP, NATS, Temporal, Kubernetes, Vault, KMS and Badger plumbing, metrics, logging, configuration and CLI.
- RotationProtocol.AttemptKeepsInv: an attempt takes effect, if at all, before the workflow moves on; a timed-out attempt that takes effect later is not modelled, nor are two rotations at once or key activation by the operator.
- FederationSync.FederationConverges: no fabric revokes anything itself while the pulls go on, and a peer's index does not change between its digest and its export.
- Inbound.InboundHandler.ReceiveRevocation: a call that runs undisturbed; calls that overlap are InboundFlow's. The flash to the local cluster is left out.
- Relay signals rewrite expiries (pkg/federation/composite.go), so convergence is stated for the pull path.
- Relaying itself, that is marshalling a signal and posting it, and the timestamps in peer state.
- ConvergencePlan.ConvergeTrustDomains: signing-key, stream, peer and revocation actions enter a plan as arbitrary actions that do not touch trust domains; their own convergence is not modelled.
- ConvergenceTheorem.InProcessConnection.ApplyAction: whether an action outside trust domains succeeds is an input.
- ConvergenceTheorem.ConvergenceOutcome: a keeper is configured and the spec has unique names, which pkg/operator/webhook.go:37 enforces at admission.
- Ledger.ECTLedger.Append: sequence numbers are unbounded rather than 64-bit, and entries are values, so a caller's later change through a shared pointer is not captured.
- Delegation.DelegationConserves: depth claims are integers; a fractional claim would be truncated on parsing.
- Timestamps are integers, so sub-second rounding of token times does not appear.
- Concurrency inside a mutex-held section, and the order of goroutines beyond the interleavings of RelayBreaker and RotationProtocol.
- Easy accessors (Len, WorkflowSize, GetTask, State) and the tool-call, MCP verifier and registry pipelines.
