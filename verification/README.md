# Verified model of mulewatch

mulewatch watches the eD2k network for the files of a list of targets: it searches by keyword in cycles,
journals every observation, judges each file with a rule engine compiled from a configuration, downloads what
the rules mark for download, and keeps the catalogue compact and mergeable. This project models the algorithms
and state machines behind that and proves what they promise, over every input, every failure and every run.

`dafny verify dfyconfig.toml` checks the whole project.

## How it is organised

| modules | what they model |
|---|---|
| `Config`, `Graph`, `Validation` | load-time validation of a matcher configuration: references, overrides, the depth-first walk with its depth guard, the memoised depth |
| `Matchers`, `Resolver` | compilation of a valid configuration into matcher trees, and what the trees mean |
| `Engine`, `AddedNames`, `Pipeline` | the evaluation engine, what one more filename does to its result, and its output as the journal's input |
| `Latest`, `Journal`, `JournalWriter`, `Interleavings` | the append-only decision journal, its latest-row views, the set-diff writer, the re-evaluation sweep, several writers on one hash |
| `SearchCycle`, `EventLoop`, `FairCycle`, `Backoff` | the work queue of a search cycle as an interleaving of coroutine steps, the turns a FIFO event loop gives its workers, the end of a fair cycle, and the backoff registry |
| `Downloads`, `DownloadCycle`, `Presence`, `Notifications`, `DiskFloor` | the downloads table and the five-step cycle over it; over runs of cycles, the expiry of what is not seen any more, the completion events and the disk floor |
| `Buckets`, `Json`, `Compaction`, `CompactedNames` | day rollups with their canonical JSON texts, compaction at a cutoff, and what it does to later evaluations |
| `Merge`, `MergedView`, `MergeTies`, `Stamps` | merge of catalogues, the latest-decision view of the result, fixed-width stamps |
| `KeysetSweep`, `ReadModels`, `Fields`, `Ed2kLink` | paged reading of the daemon's lists, the explorer's queries, separator-joined fields, ed2k links |
| `Options`, `Order` | optional values, lexicographic order, sorting, strictly ascending sequences |

Code that only computes is modelled by functions; code that updates objects, dictionaries or tables in loops is
modelled by methods and classes with loops, and each such method is proved against a specification whose own
properties are then proved as lemmas.

Everything the program asks of the outside is a parameter or a nondeterministic answer: text matching (regex,
tokenizer, fuzzy ratio), clocks, jitter, shuffles, the daemon's replies, and which database calls fail. In the
download cycle the failing calls are an input, step by step (`DownloadCycle.Faults`), so that each promise can say
whose failure it depends on; elsewhere a ghost counter `failures` records the calls that failed, so that a contract
can say that nothing is left undone unless one of them did.

## Where code and documentation disagree

The model follows the code.

- The completion notification is documented to fire exactly once
  (`packages/crawler/src/mulewatch/application/run_download_cycle.py:163-165`). It fires at most once
  (`Notifications.RunIsSafe`), and for a row that becomes COMPLETED it fires exactly when that row's own
  `get_target_id`, called after `set_state`, does not fail (`Notifications.EventIffReadSucceeds`); a run that loses
  an event for good is `Notifications.LostEvent`.
- The worker loop's comment says a re-enqueued task is taken by a peer next, so that refusals grow until the drop
  (`packages/crawler/src/mulewatch/application/run_search_cycle.py:136-138`). That holds as long as a worker that has
  not refused the task is at the loop: a pass of the event loop over its ready workers is without progress exactly
  when each of them has refused the top task and is still blocked for it (`EventLoop.BarrenPassIff`), and then some
  worker that has not refused it is away (`EventLoop.BarrenRoundNeedsAway`), in a search, a pause or a drop. While it
  is, the others take the task back and refuse it again without end: so do all workers but one, backed off, for as
  long as the search of the healthy one lasts (`EventLoop.SpinsWhileSearching`). Searches that come back let the cycle
  go on: in any cycle the rounds in which every worker gets on with its work, unless it is idle, are bounded in number
  up to the exit of the last worker (`FairCycle.FairCycleEnds`).
- The admission step is documented to keep the disk floor from measured amounts
  (`packages/crawler/src/mulewatch/application/run_download_cycle.py:220-225`). Within a cycle it does. Across cycles
  it does exactly when everything still to come is measured: each unfinished row, and each row in the queue whatever
  its state, has an entry of known size or nothing to fetch, and each entry of no known size has a row
  (`DiskFloor.FloorIffCharged`, `DiskFloor.FloorBreaksAcrossCycles`).
- A download is documented to fail when the daemon has not shown it for `lost_after_seconds`
  (`packages/crawler/src/mulewatch/application/run_download_cycle.py:204-212`). It fails when its last stamp is that
  old (`Presence.AbsenceFails`): with stamp instants that do not step back that is the same
  (`Presence.NeverSeenSince`); a clock that steps back overwrites a later sighting (`Presence.ClockBackForgets`).
- `_merge_one` is documented to copy seven tables
  (`packages/crawler/src/mulewatch/merge/merger.py:185`); it runs six statements.

An edge the code decides and no documentation mentions: with a negative `max_depth` even an empty token table is
refused, since its depth is 0 (`Graph.DepthWithin`, `Validation.ValidateConfig`).

## Model

| member | source | states |
|---|---|---|
| Config.RefsAreMentions | packages/matching/src/catalog_matching/validation.py:231-255 | the names collected from a condition are exactly the names it mentions, at any depth of inline conditions |
| Config.TokenRefsOccur | packages/matching/src/catalog_matching/validation.py:258-281 | the token references collected, overrides included, are exactly those that occur in the condition |
| Validation.CheckReferencesExist | packages/matching/src/catalog_matching/validation.py:302-314 | passes exactly when every name mentioned in a token or a rule is defined; a refusal names one that is mentioned and undefined |
| Validation.CheckOverridesTargetCoverage | packages/matching/src/catalog_matching/validation.py:284-299 | passes exactly when every reference with a min or a fuzz names a coverage token; a refusal names one that does not |
| Validation.CycleCheck.Walk | packages/matching/src/catalog_matching/validation.py:329-344 | the white/grey/black walk terminates on every graph; passing blackens the name and restores the stack, a cycle refusal is a closed chain of references, a depth refusal a chain longer than the maximum |
| Validation.CheckAcyclic | packages/matching/src/catalog_matching/validation.py:317-347 | passing means no cycle; a reported cycle is a genuine one; a depth refusal names a genuine chain that is too long |
| Validation.DepthMemo.Depth | packages/matching/src/catalog_matching/validation.py:355-361 | with the memo or without, the value is the length of the longest chain from the name |
| Validation.MaxResolutionDepth | packages/matching/src/catalog_matching/validation.py:350-363 | the result bounds every chain of references and some chain reaches it |
| Graph.LongestUnfolds | packages/matching/src/catalog_matching/validation.py:355-361 | on a table with bounded chains the longest chain satisfies the recursion `1 + max over references`, and every reference is strictly shorter |
| Graph.BoundedIsAcyclic | packages/matching/src/catalog_matching/validation.py:317-322 | a bound on chain lengths excludes cycles: a cycle can be pumped past any bound |
| Validation.CheckRegexesCompile | packages/matching/src/catalog_matching/validation.py:366-380 | passes exactly when every regex token interpolates and compiles |
| Validation.ValidateConfig | packages/matching/src/catalog_matching/validation.py:383-397 | a configuration is accepted exactly when references exist, overrides hit coverage tokens, no chain exceeds max_depth (hence no cycle) and regexes compile; each kind of refusal exactly characterises its fault, and the token, override, cycle or regex it names is a real offender |
| Resolver.ValidIsResolvable | packages/matching/src/catalog_matching/resolver.py:56-60 | an accepted configuration is one the resolver can compile |
| Resolver.AcyclicIsBounded | packages/matching/src/catalog_matching/resolver.py:82-121 | without cycles a chain of references repeats no name, so the recursion through tokens is bounded by the size of the table |
| Resolver.TokenRefsKnown | packages/matching/src/catalog_matching/resolver.py:62-70 | in a resolvable table a token's references all resolve and are strictly shallower than it: the measure by which compilation terminates |
| Resolver.CompiledIsConsistent | packages/matching/src/catalog_matching/resolver.py:76-80 | the compiled tokens satisfy the table: each matches exactly when its own definition, read over the others, holds |
| Resolver.CompiledTokenMeans | packages/matching/src/catalog_matching/resolver.py:62-70 | the table has no other consistent reading: every compiled token matches as any consistent reading says |
| Resolver.CompiledRuleMeans | packages/matching/src/catalog_matching/resolver.py:72-74 | a compiled rule matches a file exactly when its condition, read directly over the token table with coverage overrides applied at the point of use, holds |
| Resolver.OverrideMeans | packages/matching/src/catalog_matching/resolver.py:107-111 | a reference to a coverage token compiles to a tree that matches exactly when the coverage of the text reaches the minimum: the minimum and the fuzz of the reference where it has them, the token's own where it has not, in all four cases; the text is the target's title for the keyword `title` |
| Resolver.OverrideRule | packages/matching/src/catalog_matching/resolver.py:72-74 | a rule that is such a reference, alone, in a list or negated, matches accordingly |
| Resolver.RulesByNameHas | packages/matching/src/catalog_matching/resolver.py:76-80 | every rule name has a tree, and with distinct names it is that rule's own tree |
| Engine.FirstMatchingRule | packages/matching/src/catalog_matching/engine.py:115-129 | the first rule in configuration order that fires, or none when none fires |
| Engine.CollectBests | packages/matching/src/catalog_matching/engine.py:213-229 | one entry per target that a kept name fires a rule of: the least (highest tier, smallest index) over the first rules of the kept names, with the earliest name that reached it |
| Engine.FanOut | packages/matching/src/catalog_matching/engine.py:235-247 | sorted by target; exactly the attributable matches, cut to the segment-level ones in the episodes that have one |
| Engine.SingleWinner | packages/matching/src/catalog_matching/engine.py:249-265 | the least (highest tier, smallest index, smallest target) of all matches, or nothing when there is none |
| Engine.EvaluateAll | packages/matching/src/catalog_matching/engine.py:203-233 | the loops compute the declarative result: sorted, distinct targets, and exactly the decided ones, each with its rule, tier and explaining name |
| Engine.BestByTier | packages/matching/src/catalog_matching/engine.py:213-228 | the best rule of a target is a download rule if a kept name fires one first, else a notify rule if one does, else a catalog rule; and of that tier the first in the configuration |
| Engine.AttributedIff | packages/matching/src/catalog_matching/engine.py:235-247 | when some best rule names a segment or an episode, decided are exactly the targets whose best rule names a segment, and those whose best rule names an episode with no segment named for the same absolute number |
| Engine.UnattributedIff | packages/matching/src/catalog_matching/engine.py:249-265 | when none does, decided is the one target whose best rule has the highest tier, then the smallest index, then the least target id |
| Engine.DecisionBears | packages/matching/src/catalog_matching/engine.py:229-265 | every decision bears the id of a decided target and the configured name and tier of its rule |
| Engine.RecordsOrderIndependent | packages/matching/src/catalog_matching/engine.py:203-265 | the (target, rule, tier) triples depend only on which names and which targets there are, not on their order or repetition |
| Engine.DecisionsTargetOrderIndependent | packages/matching/src/catalog_matching/engine.py:203-265 | reordering the targets changes nothing at all, the explaining name included |
| AddedNames.NowBestIsBest | packages/matching/src/catalog_matching/engine.py:213-228 | with one more name, the best rule of a target is the rule that name fires first or the one it had, whichever the other does not beat |
| AddedNames.DecidedNow | packages/matching/src/catalog_matching/engine.py:229-247 | what is emitted with one more name, read off the rules it fires first: attribution, episode cut and all |
| AddedNames.AddedName | packages/matching/src/catalog_matching/engine.py:203-265 | one more name never silences a file; the best tier it is emitted with falls exactly when, with the rules that name fires first, something is attributed and every target whose best rule keeps the tier is a catch-all or cut from its episode |
| AddedNames.CatchAllGivesWay | packages/matching/src/catalog_matching/engine.py:229-233 | a configuration that validation accepts, two segments and a file on which the tier falls: a download catch-all gives way to an attributable catalog rule |
| AddedNames.SegmentCutsEpisode | packages/matching/src/catalog_matching/engine.py:243-245 | the same for two segments of one episode and no catch-all: a segment-level notify rule cuts an episode-level download rule |
| AddedNames.TwoRulesValid | packages/matching/src/catalog_matching/validation.py:383-397 | the configuration of these two files is one validation accepts |
| Engine.EngineReadsTable | packages/matching/src/catalog_matching/engine.py:171-186 | the engine built from a resolvable configuration with distinct rule names is ready, and its rules fire exactly when their conditions, read over the token table, hold |
| Pipeline.EngineFeedsJournal | packages/crawler/src/mulewatch/application/decisions.py:41-43 | what the engine returns meets what the set-diff relies on: one decision per target, real targets, never the retraction tier |
| Pipeline.TierNames | packages/matching/src/catalog_matching/engine.py:70-76 | each tier is recorded under its own name, the one the download loop selects is that of download, and none is the retraction tier |
| Pipeline.ReorderingWritesNothing | packages/crawler/src/mulewatch/application/decisions.py:41-62 | once converged, evaluating the same names and targets in any other order leaves nothing to write |
| SearchCycle.GenerateKeywords | packages/crawler/src/mulewatch/domain/search/keywords.py:21-33 | exactly the non-empty keywords, once each, in the order of their first appearance |
| SearchCycle.FillQueue | packages/crawler/src/mulewatch/application/run_search_cycle.py:179-182 | one fresh task per keyword and channel, in order |
| SearchCycle.MoveKeeps | packages/crawler/src/mulewatch/application/run_search_cycle.py:109-152 | every coroutine step keeps the whole invariant, whatever the clock does: conservation of tasks, the unfinished counter, genuine refusals, unanimous drops, and the shutdown protocol |
| SearchCycle.MoveConserves | packages/crawler/src/mulewatch/application/run_search_cycle.py:130-152 | each enqueued job stays queued, in hand, run or dropped, and only one of these |
| SearchCycle.MoveCounts | packages/crawler/src/mulewatch/application/run_search_cycle.py:131-152 | the unfinished counter stays the queue length plus the workers between get and task_done |
| SearchCycle.MoveRefuses | packages/crawler/src/mulewatch/application/run_search_cycle.py:135-147 | a queued task's refusals are real and not unanimous, and a task being dropped, or dropped before, was refused by every worker, with a clock that may step anywhere |
| SearchCycle.BackedOffRefuses | packages/crawler/src/mulewatch/application/run_search_cycle.py:135-147 | a worker whose own key, or whose key for the channel of the task, is in the registry with a later instant refuses the task: it puts it back on top and yields, or drops it, and never starts it |
| SearchCycle.FreeTakes | packages/crawler/src/mulewatch/application/run_search_cycle.py:131-148 | a worker for which neither holds takes the last item and starts it, whatever the other channel and the other workers are |
| SearchCycle.StartSearches | packages/crawler/src/mulewatch/application/search_worker.py:275-292 | run_task searches exactly when neither holds at its own check |
| SearchCycle.RunsAndDrops | packages/crawler/src/mulewatch/application/run_search_cycle.py:130-152 | a returned run counts as run and is followed by a pause exactly when items remain, a reported drop counts as dropped, and no other move counts a task as either |
| SearchCycle.MoveMain | packages/crawler/src/mulewatch/application/run_search_cycle.py:191-196 | before the join no sentinel exists and nobody has left; after it only sentinels remain, one per worker still there |
| SearchCycle.RunKeeps | packages/crawler/src/mulewatch/application/run_search_cycle.py:109-196 | every interleaving of any length keeps the invariant |
| SearchCycle.CycleRunsOrDropsEachOnce | packages/crawler/src/mulewatch/application/run_search_cycle.py:179-196 | in every interleaving, when the join can return each (keyword, channel) has been run or dropped exactly once, and nothing else has |
| SearchCycle.DropsAreUnanimous | packages/crawler/src/mulewatch/application/run_search_cycle.py:135-142 | in every interleaving a task is dropped only after every worker of the cycle refused it while blocked |
| SearchCycle.RunTaskNeverSkips | packages/crawler/src/mulewatch/application/search_worker.py:275-292 | run_task's own backoff check never takes effect from the loop, as long as the clock does not step back between a worker's two checks |
| SearchCycle.ClockBackSkips | packages/crawler/src/mulewatch/application/search_worker.py:275-292 | when it does step back there, the task counts as run without being searched: three moves from the start of any cycle in which a worker's backoff has just ended |
| SearchCycle.SentinelsMatchWorkers | packages/crawler/src/mulewatch/application/run_search_cycle.py:194-196 | after the join the sentinels left are as many as the workers left, so each worker takes exactly one |
| SearchCycle.Progress | packages/crawler/src/mulewatch/application/run_search_cycle.py:130-152 | no deadlock: until every worker has exited, some coroutine can take a step |
| SearchCycle.MoveLowers | packages/crawler/src/mulewatch/application/run_search_cycle.py:135-147 | the refusals still missing over the queued tasks never grow, and fall at every pull that is not a worker taking back a task it refused |
| SearchCycle.CyclePulls | packages/crawler/src/mulewatch/application/run_search_cycle.py:130-147 | in any interleaving the pulls that are not re-picks number at most workers times keywords times channels |
| SearchCycle.MoveFalls | packages/crawler/src/mulewatch/application/run_search_cycle.py:130-152 | every step other than the clock, a run's inside and re-picks lowers one overall measure |
| SearchCycle.SingleWorkerTerminates | packages/crawler/src/mulewatch/application/run_search_cycle.py:130-152 | with one worker every run takes a bounded number of steps |
| SearchCycle.RepickIsAStutter | packages/crawler/src/mulewatch/application/run_search_cycle.py:136-147 | a worker that takes back a task it refused, and yields, returns to the very same state |
| EventLoop.BarrenRoundNeedsAway | packages/crawler/src/mulewatch/application/run_search_cycle.py:135-147 | a stretch of a run in which every worker pulls or is away has a pull that is not a re-pick, unless a worker that has not refused the top task is away during it |
| EventLoop.SomebodyGoesAway | packages/crawler/src/mulewatch/application/run_search_cycle.py:135-147 | a round entered with tasks left, in which every worker pulls or is away, sends somebody to a search or to report a drop |
| FairCycle.MoveAdvances | packages/crawler/src/mulewatch/application/run_search_cycle.py:130-152 | no move adds to what is left to do, re-picks and their yields included, and every other pull, every step of a search, a pause or a drop, and the join take from it |
| FairCycle.FairRoundAdvances | packages/crawler/src/mulewatch/application/run_search_cycle.py:130-196 | until everybody has exited, a stretch of a run in which every worker gets on with its work unless idle, and the join is passed unless blocked, takes from what is left to do |
| FairCycle.FairCycleEnds | packages/crawler/src/mulewatch/application/run_search_cycle.py:130-196 | a fair cycle ends, with its searches, refusals, drops, join and sentinels: from any point of any cycle the fair rounds before the last worker has exited number at most 4 times workers times keywords times channels, and two per worker, and one |
| FairCycle.CanFinish | packages/crawler/src/mulewatch/application/run_search_cycle.py:130-196 | from any reachable point there is a fair run to the exit of every worker |
| EventLoop.TurnRuns | packages/crawler/src/mulewatch/application/run_search_cycle.py:130-152 | what a worker does from one suspension to the next is a run of moves with exactly one pull |
| EventLoop.ScheduleRuns | packages/crawler/src/mulewatch/application/run_search_cycle.py:188-191 | a schedule of the FIFO ready queue is a run of the cycle |
| EventLoop.BarrenPassIff | packages/crawler/src/mulewatch/application/run_search_cycle.py:136-147 | the loop passes over the workers at the head of its ready queue without progress exactly when each of them is blocked for the top task and has refused it before |
| EventLoop.SpinsWhileSearching | packages/crawler/src/mulewatch/application/run_search_cycle.py:136-147 | a fresh cycle of any number of workers from two on, all backed off but the second: the loop's own schedule has turns of any number while that worker's first search lasts, and nothing is searched to the end or dropped in them |
| Backoff.DelayStep | packages/crawler/src/mulewatch/domain/search/backoff.py:11-22 | one more failure multiplies the delay by the factor up to the cap, so delays never shrink and never exceed the cap |
| Backoff.FirstDelay | packages/crawler/src/mulewatch/domain/search/backoff.py:11-22 | the first delay, and that of any attempt below 1, is the base or the cap, whichever is less |
| Backoff.DelayMonotone | packages/crawler/src/mulewatch/domain/search/backoff.py:11-22 | over any number of failures, attempts below 1 included, delays never shrink and stay under the cap |
| Backoff.BackoffRegistry.RecordFailure | packages/crawler/src/mulewatch/application/search_worker.py:136-151 | one attempt more for this key and no other; the delay lies between the nominal one and the jitter span above it, and the key is blocked exactly until then |
| Backoff.BackoffRegistry.Reset | packages/crawler/src/mulewatch/application/search_worker.py:153-156 | forgets this key and no other: never blocked, zero attempts |
| Backoff.Restart | packages/crawler/src/mulewatch/application/search_worker.py:121-134 | a registry loaded with what the last one saved blocks the same keys at every instant and delays the next failure of each key alike |
| Downloads.DownloadPolicy | packages/crawler/src/mulewatch/domain/download/policy.py:29-57 | download exactly when the tier asks for it, the target is incomplete, the hash is unknown, and the free space less what is to come less the file stays at or above the floor |
| Downloads.OutstandingIs | packages/crawler/src/mulewatch/ports/mule_download_client.py:29-32 | what a queue has outstanding is the sum of the bytes its entries still have to fetch, an entry ahead of its total having none |
| Downloads.TransferringIs | packages/crawler/src/mulewatch/ports/mule_download_client.py:24-27 | a hash is transferring exactly when some entry of it has an unknown total or has not reached it |
| Downloads.DownloadRepository.RecordQueued | packages/crawler/src/mulewatch/adapters/persistence_sqlite/download_repository.py:57-71 | a new hash gets a QUEUED row, a known one is left alone, a failure changes nothing |
| Downloads.DownloadRepository.SetState | packages/crawler/src/mulewatch/adapters/persistence_sqlite/download_repository.py:73-87 | only the state of this row changes; an unknown hash is an error |
| Downloads.DownloadRepository.MarkSeen | packages/crawler/src/mulewatch/adapters/persistence_sqlite/download_repository.py:95-104 | stamps exactly the given known hashes; a failure part-way has stamped some of them |
| Downloads.DownloadRepository.ExpireLost | packages/crawler/src/mulewatch/adapters/persistence_sqlite/download_repository.py:106-116 | fails and returns exactly the unfinished rows last seen before the cutoff |
| DownloadCycle.DownloadLoop.Monitor | packages/crawler/src/mulewatch/application/run_download_cycle.py:139-155 | exactly the tracked hashes met before the first failing write, FAILED ones included and COMPLETED ones not, become DOWNLOADING; no other row changes; it stops exactly when such a write fails |
| DownloadCycle.DownloadLoop.RecordCompletion | packages/crawler/src/mulewatch/application/run_download_cycle.py:158-171 | the event is emitted only when both repository calls succeed; a failure of the second leaves the row COMPLETED without an event |
| DownloadCycle.DownloadLoop.HandleCompletions | packages/crawler/src/mulewatch/application/run_download_cycle.py:174-201 | exactly the due hashes for which their own set_state succeeds become COMPLETED, and exactly those whose own get_target_id then succeeds are notified, whatever fails for other hashes |
| DownloadCycle.DownloadLoop.PresenceAndExpiry | packages/crawler/src/mulewatch/application/run_download_cycle.py:367-373 | stamps first and condemns after: the table is exactly the stamped one with its lost rows failed; a failed stamp, or a failed expiry, condemns nothing |
| DownloadCycle.DownloadLoop.ConsiderCandidate | packages/crawler/src/mulewatch/application/run_download_cycle.py:233-262 | one candidate is passed over, deferred for disk, queued with its observed size, or aborts the step, each for exactly its reason |
| DownloadCycle.DownloadLoop.QueueNewCandidates | packages/crawler/src/mulewatch/application/run_download_cycle.py:220-264 | after every admission free space less outstanding less admitted stays at or above the floor, a hash is charged once even when several targets ask for it, no deferred candidate would still fit, only candidates are admitted, and every candidate is settled up to the first failing call |
| DownloadCycle.DownloadLoop.AddLinks | packages/crawler/src/mulewatch/application/run_download_cycle.py:267-297 | every QUEUED row with an observation has its link sent and a rejected link fails its own row and no other; the walk stops short only when the states cannot be read or at a row with an obstacle of its own, which stays QUEUED |
| DownloadCycle.DownloadLoop.RunDownloadCycle | packages/crawler/src/mulewatch/application/run_download_cycle.py:300-389 | the promise of a whole cycle, each clause depending on the failures of its own step alone: the whole table row by row, completions notified exactly, floor kept, candidates settled, links sent |
| DownloadCycle.CycleOutcome | packages/crawler/src/mulewatch/application/run_download_cycle.py:337-389 | what the steps promise one by one survives the later steps, whatever failed in the others |
| DownloadCycle.CycleRow | packages/crawler/src/mulewatch/application/run_download_cycle.py:337-389 | every row a cycle starts with ends it, stamp and state, as the steps make it one after the other: marked, completed, stamped, expired or rejected exactly when its step says so, and otherwise as it was |
| DownloadCycle.FailuresExact | packages/crawler/src/mulewatch/application/run_download_cycle.py:204-217 | a row ends a cycle FAILED exactly when it fails for its absence, its link is rejected, or it was FAILED and neither queue nor shared files revived it |
| DownloadCycle.QueueFollowed | packages/crawler/src/mulewatch/application/run_download_cycle.py:139-155 | a tracked hash the monitor reaches ends the cycle DOWNLOADING or COMPLETED, whatever fails later (when the clock moves by at most lost_after between stamp and cutoff) |
| DownloadCycle.LinksSent | packages/crawler/src/mulewatch/application/run_download_cycle.py:267-297 | every row QUEUED when the links are sent, old or new, has its link sent, unless it has no observation, the states cannot be read, or a QUEUED row left unsent is obstructed |
| DownloadCycle.CycleFloor | packages/crawler/src/mulewatch/application/run_download_cycle.py:220-264 | after every admission of a cycle the free space, less the bytes the queue still has to fetch, less what was admitted, is at or above the floor, and nothing deferred would have fit |
| DownloadCycle.TargetStatusIs | packages/crawler/src/mulewatch/application/run_download_cycle.py:130-136 | the status of a target is that of the first one with its id, and complete when there is none |
| DownloadCycle.DownloadLoop.Run | packages/crawler/src/mulewatch/application/run_download_cycle.py:411-421 | a run is a sequence of cycles, each keeping the promise of a cycle |
| Presence.LastStampIsKept | packages/crawler/src/mulewatch/application/run_download_cycle.py:367-373 | over any run, whatever fails and whatever the clock does, a row bears the instant of the last cycle that stamped it, or of its queuing |
| Presence.AbsenceFails | packages/crawler/src/mulewatch/application/run_download_cycle.py:204-217 | over any run, a cycle fails a row for its absence exactly when the row is unfinished after the completions, stamping and expiry work, and its last stamp, this cycle's included, is before the cutoff |
| Presence.NeverSeenSince | packages/crawler/src/mulewatch/application/run_download_cycle.py:204-217 | while stamp instants do not step back, a row fails for its absence only if no cycle has stamped it at or after the cutoff |
| Presence.ClockBackForgets | packages/crawler/src/mulewatch/application/run_download_cycle.py:367-373 | from the empty table, four cycles in which a clock steps back fail a row that was stamped after the cutoff |
| Notifications.RunIsSafe | packages/crawler/src/mulewatch/application/run_download_cycle.py:158-201 | over any run of cycles with any failures, no row disappears, COMPLETED is never left, and no hash is notified twice |
| Notifications.EventFollowsRead | packages/crawler/src/mulewatch/application/run_download_cycle.py:167-170 | in the cycle that completes a row, its event is emitted exactly when its own get_target_id succeeds |
| Notifications.SilentForever | packages/crawler/src/mulewatch/application/run_download_cycle.py:190-191 | a row that ends a cycle COMPLETED without its event never gets one |
| Notifications.EventIffReadSucceeds | packages/crawler/src/mulewatch/application/run_download_cycle.py:158-201 | over any run, a row that becomes COMPLETED has its event at the end if and only if its own get_target_id did not fail in the cycle that completed it |
| Notifications.LostEvent | packages/crawler/src/mulewatch/application/run_download_cycle.py:167-170 | from the empty table, a run that leaves a row COMPLETED and silent, however it goes on |
| DiskFloor.MeasuredIff | packages/crawler/src/mulewatch/application/run_download_cycle.py:342 | nothing is uncharged, whatever the sizes nobody knows, exactly when each unfinished row and each row in the queue has an entry of known size or nothing to fetch, and each entry of no known size has a row |
| DiskFloor.NascentIsUncharged | packages/crawler/src/mulewatch/ports/mule_download_client.py:28-32 | an entry of no known size is not charged at all, whatever the state of its row, or without one |
| DiskFloor.FloorIffCharged | packages/crawler/src/mulewatch/application/run_download_cycle.py:220-264 | for all tables, queues and targets: every admission, over every disk, candidate list and unknown size, leaves room for the uncharged bytes too if and only if everything still to come is measured before the step (or no target is open, so that nothing is admitted) |
| DiskFloor.UnchargedBreaks | packages/crawler/src/mulewatch/application/run_download_cycle.py:246-262 | with anything uncharged and a target open, one byte of room above the floor lets a candidate in that breaks it |
| DiskFloor.FloorBreaksAcrossCycles | packages/crawler/src/mulewatch/application/run_download_cycle.py:257-262 | from the empty table, two cycles around an unreachable add_link admit twenty bytes on fifteen, each keeping the floor as it sees it |
| Latest.LatestFormsAgree | packages/crawler/src/mulewatch/adapters/persistence_sqlite/catalog_repository.py:61-115 | the anti-join, the window form, ORDER BY with LIMIT 1 and the direct definition pick the same row, for every table with unique ids |
| Latest.AntiJoinOnePerKey | packages/crawler/src/mulewatch/adapters/persistence_sqlite/catalog_repository.py:105-115 | the anti-join returns exactly one row per observed hash |
| Latest.AppendedIsLatest | packages/crawler/src/mulewatch/adapters/persistence_sqlite/catalog_repository.py:164-200 | an appended row becomes the latest of its key exactly when its stamp is not below the current latest one, and never moves another key |
| Latest.LatestOfIsLatest | packages/crawler/src/mulewatch/adapters/persistence_sqlite/catalog_repository.py:88-94 | there is a latest row exactly when the key occurs, and no other row of the key is later |
| Journal.LastDecisionsAreCurrent | packages/crawler/src/mulewatch/adapters/persistence_sqlite/catalog_repository.py:202-214 | `last_decisions` gives, for every real target, its latest verdict, retractions included |
| Journal.PlanOf | packages/crawler/src/mulewatch/application/decisions.py:41-62 | the two loops write exactly one row per target whose live verdict differs from the fresh one, carrying the fresh verdict or a retraction |
| Journal.AppendedView | packages/crawler/src/mulewatch/application/decisions.py:47-61 | rows appended with stamps that never step back win the view of their targets and move nothing else |
| Journal.PlanConverges | packages/crawler/src/mulewatch/application/decisions.py:41-62 | from any prior log a complete plan makes the live view equal the fresh decisions |
| Journal.PartialPlan | packages/crawler/src/mulewatch/application/decisions.py:45-61 | a plan interrupted after any row leaves each target as it was or as it should be |
| Journal.PlanSize | packages/crawler/src/mulewatch/application/decisions.py:45-62 | the rows written number the differences, and nothing is written exactly when the hash has converged |
| Journal.DownloadCandidates | packages/crawler/src/mulewatch/adapters/persistence_sqlite/catalog_repository.py:76-86 | for a converged hash the download candidates are exactly its fresh download decisions |
| JournalWriter.SortedTargets | packages/crawler/src/mulewatch/application/decisions.py:56 | the known targets, once each, in ascending order |
| JournalWriter.DecisionJournal.Record | packages/crawler/src/mulewatch/adapters/persistence_sqlite/catalog_repository.py:164-200 | appends one row with a fresh id and a stamp that does not step back, or fails and appends nothing |
| JournalWriter.DecisionJournal.RecordDecisionIfChanged | packages/crawler/src/mulewatch/application/decisions.py:28-62 | one complete call converges from any log and writes one row per difference; a failed one leaves each target as it was or as it should be; other hashes do not move; a converged hash is never written again; it fails only when a repository call does |
| Interleavings.ConvergedIff | packages/crawler/src/mulewatch/application/decisions.py:41-62 | whoever wrote the rows and in whatever order, the hash ends converged exactly when the last row of each target shows the fresh verdict and no target without a row differed |
| Interleavings.ScheduleConvergesIff | packages/crawler/src/mulewatch/application/decisions.py:41-62 | of two complete calls on a hash, in any interleaving: it ends converged on the decisions of one exactly when the other has the last word on no target they judge differently |
| Interleavings.WritesIff | packages/crawler/src/mulewatch/application/decisions.py:41-62 | and a call writes such a target at all exactly when the view did not show its verdict at the start, or the other call had written the target before it read |
| Interleavings.AgreeingWritersConverge | packages/crawler/src/mulewatch/application/decisions.py:43-61 | writers that judged a hash alike converge however they interleave, once the differences one of them read are written by whichever |
| Interleavings.StaleWriterWins | packages/crawler/src/mulewatch/application/decisions.py:49-52 | a writer suspended after a row and resumed with what it had read leaves its stale verdict over a fresher writer's, both having completed |
| JournalWriter.DecisionJournal.ReevaluateCatalog | packages/crawler/src/mulewatch/application/reevaluate_catalog.py:42-78 | every hash that did not fail has converged, the failed ones number the failures, other hashes are untouched, and a sweep over a converged catalogue writes nothing |
| Buckets.SortedSetCanonical | packages/crawler/src/mulewatch/domain/retention/buckets.py:48-50 | two lists have the same JSON text exactly when they have the same elements |
| Order.BelowMeans | packages/crawler/src/mulewatch/domain/retention/buckets.py:50 | texts are sorted by the first character at which they differ, a proper start coming first |
| Order.PrefixIs | packages/crawler/src/mulewatch/domain/retention/buckets.py:62 | the day of a stamp is its first characters, as many as there are up to the width |
| Json.DumpsInjective | packages/crawler/src/mulewatch/domain/retention/buckets.py:48-50 | the text of an array of strings, escapes and surrogate pairs included, determines the array |
| Json.EscapesAre | packages/crawler/src/mulewatch/domain/retention/buckets.py:48-50 | a printable ASCII character other than the quote and the backslash stands for itself, seven characters have their short escape, and whatever is written is printable ASCII |
| Json.BodySnoc | packages/crawler/src/mulewatch/domain/retention/buckets.py:48-50 | a text is escaped character by character |
| Json.ItemsSnoc | packages/crawler/src/mulewatch/domain/retention/buckets.py:48-50 | between two items stand a comma and a blank |
| Json.Framed | packages/crawler/src/mulewatch/domain/retention/buckets.py:48-50 | an array stands between brackets, an item between quotes |
| Buckets.AggregateSets | packages/crawler/src/mulewatch/domain/retention/buckets.py:72-73 | a bucket's filenames and nodes are exactly those of its rows |
| Buckets.AggregateExtremes | packages/crawler/src/mulewatch/domain/retention/buckets.py:74-82 | a bucket's extremes, stamps and both counts, bound every row of it, and each is that of some row |
| Buckets.AggregateSums | packages/crawler/src/mulewatch/domain/retention/buckets.py:64-84 | one row more adds one to the count and its two source counts to the sums |
| Buckets.AggregateBounds | packages/crawler/src/mulewatch/domain/retention/buckets.py:74-82 | count times min is at most sum is at most count times max for both counts, first is at most last, and both lie on the bucket's day |
| Buckets.AggregatePermutation | packages/crawler/src/mulewatch/domain/retention/buckets.py:53-84 | a bucket depends only on which rows its group has |
| Buckets.RollupUnique | packages/crawler/src/mulewatch/domain/retention/buckets.py:53-85 | the rollup, as a multiset of buckets, depends only on which rows there are |
| Compaction.Bucketize | packages/crawler/src/mulewatch/domain/retention/buckets.py:53-85 | from sorted rows, exactly one bucket per (hash, day) that occurs, and no row, source or complete source lost or counted twice |
| Compaction.KeyBetween | packages/crawler/src/mulewatch/domain/retention/buckets.py:56-63 | sorting by hash and stamp makes the rows of a (hash, day) contiguous |
| Compaction.DayIsWhole | packages/crawler/src/mulewatch/compact/compactor.py:104 | at a day-aligned cutoff a day is compacted in full or not at all |
| Compaction.CatalogDb.CompactFrom | packages/crawler/src/mulewatch/compact/compactor.py:112-140 | recent rows kept, old rows rolled up, existing ranges and the other tables carried over, totals conserved; a failure anywhere leaves the output empty |
| Compaction.CompactionConserves | packages/crawler/src/mulewatch/compact/compactor.py:112-174 | row count and both source-count sums are the same before and after |
| Compaction.CompactionsCompose | packages/crawler/src/mulewatch/compact/compactor.py:100-174 | compacting at c1 and then at c2 >= c1 gives the same raw rows and the same ranges as compacting once at c2 |
| Compaction.CompactionIsIdempotent | packages/crawler/src/mulewatch/compact/compactor.py:100-174 | compacting again at the same cutoff changes nothing |
| Compaction.RangesAreBounded | packages/crawler/src/mulewatch/compact/compactor.py:143-174 | every range added keeps its bounds, lies within one day, and that day is before the cutoff |
| Compaction.RangeIsOfRows | packages/crawler/src/mulewatch/domain/retention/buckets.py:64-84 | each of the six extremes of a range added is that of an old row of its hash and day, and bounds all of these rows |
| CompactedNames.NamesAfterCompaction | packages/crawler/src/mulewatch/adapters/persistence_sqlite/catalog_repository.py:96-99 | a compaction keeps the names a hash is judged on exactly when each of its old names recurs after the cutoff |
| CompactedNames.CompactionWritesNothing | packages/crawler/src/mulewatch/application/decisions.py:41-62 | when they do, a hash that had converged before the compaction has nothing to write after it |
| Merge.TwinIsEquality | packages/crawler/src/mulewatch/merge/merger.py:48-73 | with IS the twins of a row are its equals; with `=` a row would find itself exactly when it has no NULL |
| Merge.NewRowsAre | packages/crawler/src/mulewatch/merge/merger.py:63-73 | the rows inserted are exactly those of the source the destination lacks, once each |
| Merge.MergedIsUnion | packages/crawler/src/mulewatch/merge/merger.py:141-148 | every destination row stays in place, each journal becomes the union without new repetitions, and a known file or source keeps its values |
| Merge.MergedIsNoOp | packages/crawler/src/mulewatch/merge/merger.py:151-153 | merging a source whose content is already there changes nothing |
| Merge.MergeAllIsUnion | packages/crawler/src/mulewatch/merge/merger.py:176-179 | after any number of merges each table holds exactly what the destination or some source held |
| Merge.MergeOrderIndependent | packages/crawler/src/mulewatch/merge/merger.py:176-179 | the journals as sets and the keys of files and sources do not depend on the order of the sources |
| Merge.IdentityOrder | packages/crawler/src/mulewatch/merge/merger.py:37-45 | the values of files and sources do: two sources commute exactly when they agree on the keys they share and the destination lacks |
| Merge.RemergeIsNoOp | packages/crawler/src/mulewatch/merge/merger.py:60-61 | merging again any source already merged, whatever came in between, is a no-op |
| MergedView.MergedViewAgrees | packages/crawler/src/mulewatch/merge/merger.py:176-179 | without rows of the key that tie at the latest stamp with different verdicts, the latest decision does not depend on the order of the sources |
| MergedView.DecisionColumns | packages/crawler/src/mulewatch/merge/merger.py:115-118 | the columns of a decision row are target, rule, tier and stamp, in this order |
| MergeTies.OrderShowsIff | packages/crawler/src/mulewatch/merge/merger.py:60-73 | with any ties, the latest decision of a key is the same for every order of the sources exactly when all tied rows that can be inserted last carry one verdict: those the destination lacks and some source holds, each other such row coming before it there or being in a source without it |
| MergedView.TwoSourcesAgree | packages/crawler/src/mulewatch/merge/merger.py:60-73 | two sources of one row each show the same decision in both orders exactly when they do not so tie |
| Merge.Output.MergeOne | packages/crawler/src/mulewatch/merge/merger.py:184-219 | all six statements or none; refused exactly when it does not attach or has another schema version; references still hold afterwards |
| Merge.Output.MergeCatalogs | packages/crawler/src/mulewatch/merge/merger.py:151-181 | source by source up to the first failure: what was merged before it stays, of the failing one nothing does, and in `--into` mode the output is passed over |
| Stamps.StampOrder | packages/crawler/src/mulewatch/adapters/persistence_sqlite/connection.py:48-55 | comparing stamps as texts is comparing instants, the first ten characters are the date, and a stamp is before a cutoff date exactly when its own date is |
| Stamps.DateText | packages/crawler/src/mulewatch/adapters/persistence_sqlite/connection.py:48-55 | the date is year, month and day on 4, 2 and 2 digits with dashes between |
| Stamps.TimeText | packages/crawler/src/mulewatch/adapters/persistence_sqlite/connection.py:48-55 | the time is hour, minute, second and microsecond on 2, 2, 2 and 6 digits, ending in the UTC offset |
| Stamps.StampParts | packages/crawler/src/mulewatch/adapters/persistence_sqlite/connection.py:48-55 | a stamp is its date, a T and its time |
| Stamps.FixedReads | packages/crawler/src/mulewatch/adapters/persistence_sqlite/connection.py:48-55 | a field reads back as its number |
| Stamps.Widths | packages/crawler/src/mulewatch/adapters/persistence_sqlite/connection.py:48-55 | the fields have room for the numbers below 100, 10000 and 1000000 |
| KeysetSweep.Collect | packages/crawler/src/mulewatch/adapters/mule_api/client.py:239-257 | terminates; no hash twice, every hash was listed, and every hash listed throughout is returned, unless the last answer carried no list or was a full page ending in a row without a hash |
| KeysetSweep.AnchorAdvances | packages/crawler/src/mulewatch/adapters/mule_api/client.py:251-257 | each full page that ends in a hash leaves strictly fewer hashes ahead of the anchor |
| ReadModels.LatestDecIsLive | packages/crawler/src/mulewatch/webui/adapters/catalog_read.py:113-127 | the explorer's view of decisions is the live view of the journal |
| ReadModels.FiltersMean | packages/crawler/src/mulewatch/webui/adapters/catalog_read.py:259-286 | the filters keep a file exactly when the target has a live verdict other than catalog, some target has a live verdict of the tier, and the newest observed name matches; and it is matched exactly when some target has a live verdict |
| ReadModels.FacetIsTotal | packages/crawler/src/mulewatch/webui/adapters/catalog_read.py:428-445 | for every target and query filter each tier facet shows the total one gets by choosing that tier |
| ReadModels.MatchedIsListed | packages/crawler/src/mulewatch/webui/adapters/catalog_read.py:406-426 | the matched counter is the number of rows over all pages of the matched-only list |
| ReadModels.ListingsAgree | packages/crawler/src/mulewatch/webui/adapters/catalog_read.py:376-378 | the hash tiebreak leaves no freedom: two executions of one query list the files in the same order, for every column and direction |
| ReadModels.ListingSorts | packages/crawler/src/mulewatch/webui/adapters/catalog_read.py:376-378 | for every column and direction an earlier row does not come after a later one, nothing standing first in ascending and last in descending order, the tier column by the strongest tier held; rows alike stand by hash |
| ReadModels.PageRows | packages/crawler/src/mulewatch/webui/adapters/catalog_read.py:379-381 | a page is the fifty rows from its offset on |
| ReadModels.ListingExists | packages/crawler/src/mulewatch/webui/adapters/catalog_read.py:376-378 | such an ordered listing exists for every set of files |
| ReadModels.PagesPartition | packages/crawler/src/mulewatch/webui/adapters/catalog_read.py:332-404 | pages cut from separate executions and put end to end give every filtered file exactly once, in order |
| ReadModels.DecisionsRoundTrip | packages/crawler/src/mulewatch/webui/adapters/catalog_read.py:292-295 | joining targets and tiers with the unit separator and splitting them gives the decisions back exactly when no value contains the separator |
| Fields.SplitJoin | packages/crawler/src/mulewatch/webui/adapters/catalog_read.py:292-295 | splitting undoes joining exactly when no field contains the separator |
| Ed2kLink.Utf8RoundTrip | packages/matching/src/catalog_matching/ed2k_link.py:26-29 | decoding the UTF-8 of a text (section 3 of RFC 3629) gives the text back |
| Ed2kLink.QuoteRoundTrip | packages/matching/src/catalog_matching/ed2k_link.py:23-29 | percent-decoding (section 2.1 of RFC 3986) a quoted name gives the name back, and a quoted name has no bar |
| Ed2kLink.QuoteChar | packages/matching/src/catalog_matching/ed2k_link.py:20-23 | letters, digits and the marks `_.-~()[]` stand for themselves, and of any other character each UTF-8 byte is written as a percent sign and two hexadecimal digits in capitals |
| Ed2kLink.QuoteSnoc | packages/matching/src/catalog_matching/ed2k_link.py:26-29 | a name is quoted character by character |
| Ed2kLink.LinkRoundTrip | packages/matching/src/catalog_matching/ed2k_link.py:26-29 | for every Unicode name, every size and a hash without bars, the link has exactly five bars and splitting on them recovers name, size and hash |
| Ed2kLink.LinkFrame | packages/matching/src/catalog_matching/ed2k_link.py:26-29 | a link starts with `ed2k://`, a bar, `file` and a bar, and ends with a bar and a slash |
| Ed2kLink.DigitsPlain | packages/matching/src/catalog_matching/ed2k_link.py:26-29 | the size has no leading zeros |
| Ed2kLink.LinkInjective | packages/matching/src/catalog_matching/ed2k_link.py:26-29 | different files never share a link |

## Left out

- Schema parsing of the configuration and the targets (`_parse_*`, `parse_targets`): a table starts as a value; distinct target ids, which `parse_targets` checks, are assumed by the engine.
- Uniqueness of rule names is not checked by validation; it is assumed only where a rule's tree is looked up by name (`Engine.EngineReadsTable`).
- The insides of the regex, tokenizer, fuzzy and interpolation functions: they are parameters.
- The explanation of a decision beyond the name it is computed from.
- SearchCycle.MoveKeeps: workers are told apart by position, so instance names are assumed distinct, and instance and channel backoff keys are kept apart by construction instead of by their text; what happens inside a run (polling, widening, recording) is any change to the worker's own backoff keys.
- EventLoop.SpinsWhileSearching: the schedule is that of a ready queue while nobody who is away comes back, and backoff instants and the clock stay as they are; waking a worker parked on an empty queue is not modelled.
- The cycle seed and the shuffle: the keyword order is any order. Coverage aggregation, cancellation, and the persistence of the cycle index at the end of a cycle.
- Backoff.DelayStep: delays and instants are reals, so rounding and the overflow of `factor ** n` after very many failures are not modelled; a factor of at least 1 is what the configuration enforces.
- DownloadCycle.DownloadLoop.RunDownloadCycle: the catalogue's answers are taken as stable within a cycle (one last observation per hash); rows deleted by an operator for a manual retry are outside a run.
- DiskFloor.FloorIffCharged: what a row with no entry of known size still needs is its observed size, bytes already on disk included.
- JournalWriter.DecisionJournal.RecordDecisionIfChanged: one call on a hash without another on the same hash between its writes; what two of them can do is stated in `Interleavings`.
- JournalWriter.DecisionJournal.Record: the clock is assumed not to step back; `Latest.AppendedIsLatest` says exactly what an earlier stamp would lose.
- Nudges, telemetry events other than `DownloadCompleted`, logging, and the wait between cycles.
- KeysetSweep.Collect: the server is assumed to serve the first rows above the anchor in hash order.
- ReadModels.PagesPartition: the star join is modelled as one row per file, which its aggregated sub-queries give; a changing catalogue between pages, NULL columns shown as empty, target coverage and the file detail page are not modelled.
- The SQL engine: a statement is atomic and a transaction is all or nothing; CHECK constraints, triggers and the migration runner are not modelled, and a source refused by one of them counts as a failed copy.
- The aMule HTTP client, login, VPN port renewal, service restarts, the web pages and alerting.
