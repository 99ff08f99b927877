# Verification of the agent back end

This project models the parts of the agent back end whose correctness depends on state,
order or interleaving, and proves what they guarantee. `dafny verify dfyconfig.toml` checks
all of it.

| part of the system | files |
|---|---|
| automatic continuation: overlap search, whitespace-tolerant cut, streaming buffer | `Overlap`, `Whitespace`, `Continuation`, `ContinuationStream` |
| the writer loop that drives them, for any provider | `StreamingWriter` |
| multi-agent lifecycle: statuses, handoffs, failure cascade, retry, approval resume | `AgentGraph`, `Lifecycle`, `LifecycleRuns`, `LifecycleEffects` |
| context compaction with tool-call pairs | `Compaction`, `CompactionProperties`, `CompactionExactness`, `CompactionCases` |
| run admission and tool caps under interleaving | `Quotas`, `QuotaProtocol`, `ToolQuota` |
| the per-run event log and its subscribers | `EventStore`, `EventProgress`, `EventTail` |
| exactly-once allocation of model usage | `UsageMeter` |
| the patch language and its applier | `PatchText`, `PatchParser`, `PatchRoundTrip`, `PatchBlocks`, `PatchApply` |
| the spawn graph, and the order, stages and lanes of a plan | `SpawnGraph`, `Plan`, `PlanOrder`, `PlanStages` |

Code that updates objects or loops is modelled by classes and methods, each proved against
functions or predicates that say what it computes; the properties of whole runs are proved
about those functions. Concurrent code is modelled as a state machine whose steps are the
stretches between two `await`s, under arbitrary interleaving.

## What the proofs found

In these places the code does not meet, for all inputs, what its comments or documentation
say. The model follows the code; the exact condition is proved in each case.

- Continuation. The buffer and the one-shot form agree for every chunking except, exactly,
  when the text is longer than the window and the existing text already ends with it: the
  one-shot form drops it whole, the buffer lets through what follows the first window
  (`StreamingIsOneShot`).
- Lifecycle. The emitter promises that a terminal node never goes back to running and that
  a sequential stage runs one node at a time. Starting and cancelling guard this;
  completing, failing, retrying and resuming leave it to the driver. `KeepsPromise` is the
  exact condition under which a step from an ordered graph leaves every running node with
  only completed ancestors (`StepKeepsPromiseIff`), and `Guarded` the weakest one that also
  keeps the order itself, on which the next step relies (`StepKeepsOrderIff`); a late retry
  is a counterexample (`LateRetryBreaksSequence`). A retry that succeeds does not reopen
  what the failure closed.
- Lifecycle events. A listener that replays the events has the right node and edge statuses
  after every transition but one: an approved resume changes a node without announcing it.
  The announced active nodes go stale exactly when a running node is put on hold or cancelled
  without a run status after it.
- Compaction. With a call id reused after it was answered, a kept tool result can lose the
  call in front of it; with a protected block, a call in the block can lose its result. The
  condition is exact for every valid transcript and protected block, for each budget
  (`CompactionIsValidIff`) and for all of them (`TranscriptIsSafeIff`).
- Tool cap. Two concurrent calls for the same new tool can exceed the cap: the second finds
  the tool in the set while the first is still to be rolled back. As long as no call does,
  the cap holds (`GuardedRunsRespectTheCap`), and from any state so reached a call that does
  can be followed by ones that do not and still exceed the cap (`CapIsSafeIff`).
- Event log. A single append can still give up, but only after three other transactions
  committed rows during the call.
- Usage. Claims add up to the counter's net growth exactly when the counter never goes down
  between counted snapshots.
- Patches. Hunks are documented to match exactly; the code compares trimmed lines and then
  writes the patch's own spelling, so context lines change exactly when they are not spelled
  as in the file. Indentation after `@@` is always lost.
- Spawn graph. Each stored edge is listed once, except that the root's own edges are listed
  twice exactly when the root lies on a cycle.

## Model

| member | source | states |
|---|---|---|
| Overlap.LongestOverlap | backend/app/agents/continuation.py:48-49 | the greatest k for which the last k characters of one string are the first k of the other |
| Overlap.FollowBorders | backend/app/agents/continuation.py:55-56 | following the failure table gives up no overlap that the next character could extend |
| Overlap.FailureTable | backend/app/agents/continuation.py:52-59 | entry i is the longest proper border of the first i+1 characters; fewer fallbacks than characters |
| Overlap.ScanCharacter | backend/app/agents/continuation.py:63-71 | one character of the scan keeps the longest match, falling back to its border on a full match before the end |
| Overlap.SuffixPrefixLength | backend/app/agents/continuation.py:48-72 | returns the longest suffix-prefix overlap, with at most as many fallback steps as the two lengths together |
| Whitespace.CollapsedEndIsGreatest | backend/app/agents/continuation.py:75-93 | the recorded end offset is the greatest cut whose collapsed form has that many characters |
| Whitespace.CollapsedEndIsExact | backend/app/agents/continuation.py:75-93 | collapsing the text before the k-th recorded offset gives exactly the first k collapsed characters |
| Whitespace.CollapseMeaning | backend/app/agents/continuation.py:75-93 | collapsing keeps every character that is not whitespace, in order, and leaves no whitespace but single spaces |
| Whitespace.NormaliseWhitespace | backend/app/agents/continuation.py:75-93 | the one-pass loop returns the collapsed text and, for each of its characters, that greatest end offset |
| Whitespace.CollapseOfSuffix | backend/app/agents/continuation.py:118-124 | text that ends a string still ends it after collapsing |
| Continuation.TolerantDominatesExact | backend/app/agents/continuation.py:115-131 | the whitespace-tolerant cut is never shorter than the exact one |
| Continuation.CutIsGreatestRepetition | backend/app/agents/continuation.py:113-132 | the cut is a repetition up to whitespace, at least every exact repetition, and the greatest tolerant one when the overlap is strong; otherwise it is exact |
| Continuation.CutByStrength | backend/app/agents/continuation.py:113-131 | if some repetition up to whitespace has two characters that are not whitespace, the cut is the greatest repetition up to whitespace; otherwise it is the greatest exact one |
| Continuation.NovelTextDropsOnlyRepetition | backend/app/agents/continuation.py:96-132 | the result is the continuation without a prefix that the whole existing text already ends with, up to whitespace |
| Continuation.NovelTextDropsGreatest | backend/app/agents/continuation.py:96-132 | and, of the last and first w characters with w at least one, it drops the greatest such repetition |
| Continuation.MergeKeepsBoth | backend/app/agents/continuation.py:135-144 | a merge starts with the existing text and ends, up to whitespace, with the whole continuation |
| Continuation.RepeatAddsNothing | backend/app/agents/continuation.py:107-110 | a continuation the text already ends with adds nothing, however long |
| Continuation.ComputeCut | backend/app/agents/continuation.py:115-131 | the two searches and the offset map compute that cut |
| Continuation.ContinuationNovelText | backend/app/agents/continuation.py:96-132 | all early returns and the windows compute the novel text, for any window argument |
| Continuation.MergeContinuation | backend/app/agents/continuation.py:135-144 | computes the merge |
| ContinuationStream.ContinuationBuffer.constructor | backend/app/agents/continuation.py:150-159 | starts unresolved with nothing held and a window of at least one |
| ContinuationStream.ContinuationBuffer.Feed | backend/app/agents/continuation.py:161-176 | never holds more than the window; the new state and output are those of the buffer's transition |
| ContinuationStream.ContinuationBuffer.Flush | backend/app/agents/continuation.py:178-186 | releases the novel part of what is held, once |
| ContinuationStream.ChunkingIrrelevant | backend/app/agents/continuation.py:147-186 | for every way of cutting a text into chunks the joined output is the same |
| ContinuationStream.ShortTextStreams | backend/app/agents/continuation.py:147-186 | text that fits the window streams exactly as in one shot |
| ContinuationStream.LongTextStreams | backend/app/agents/continuation.py:147-186 | so does longer text, when the existing text does not end with it |
| ContinuationStream.StreamingIsOneShot | backend/app/agents/continuation.py:109-110 | streaming and one shot agree if and only if the text is not both longer than the window and already the ending |
| StreamingWriter.Writer.constructor | backend/app/agents/streaming_writer.py:179-187 | before the first round the message is the initial text and nothing was emitted |
| StreamingWriter.Writer.Emit | backend/app/agents/streaming_writer.py:304-308 | the message stays the initial text followed by all emitted tokens |
| StreamingWriter.ContentsAreAll | backend/app/agents/streaming_writer.py:279-308 | without a cancellation the text of a dispatch is all its chunks; with one, all those before it |
| StreamingWriter.LastReasonCounts | backend/app/agents/streaming_writer.py:309-310 | the finish reason of a dispatch with no cancellation is the last non-empty one given |
| StreamingWriter.Writer.DispatchDirect | backend/app/agents/streaming_writer.py:279-312 | a first-round dispatch emits every content chunk received before a cancellation, as it came |
| StreamingWriter.Writer.DispatchBuffered | backend/app/agents/streaming_writer.py:263-376 | a follow-up dispatch adds exactly what the buffer makes of the joined chunks, on every way out |
| StreamingWriter.Writer.Dispatch | backend/app/agents/streaming_writer.py:258-376 | counts one dispatch, and the two forms above by round |
| StreamingWriter.Writer.Try | backend/app/agents/streaming_writer.py:257-387 | one try extends the trace by one valid attempt and the fold by its contribution |
| StreamingWriter.Writer.RunRound | backend/app/agents/streaming_writer.py:256-390 | a round is one try, and a second one only after a blank try; it fails only when the stream or the budget check raised |
| StreamingWriter.Writer.Turn | backend/app/agents/streaming_writer.py:251-458 | one turn of the round loop leads to the top of the next round or ends a complete run, also when cancelled at the top |
| StreamingWriter.Writer.EndRound | backend/app/agents/streaming_writer.py:392-458 | another round follows if and only if the reason is "length", the limit is not reached, nothing cancels before or after the checkpoint, and the checkpoint is persisted; otherwise how the run ends |
| StreamingWriter.Writer.Stream | backend/app/agents/streaming_writer.py:251-461 | for every provider, every cancellation point and every persistence outcome: the attempts follow one another as stated below up to one after which nothing is due, the message is their fold, and how the run ends |
| StreamingWriter.LengthStopIsFollowedUp | backend/app/agents/streaming_writer.py:392-435 | in a whole run, after an attempt with some content whose last given reason is "length", below the limit and with no failure or cancellation in between, the first try of the next round follows |
| StreamingWriter.OnlyTheseFollow | backend/app/agents/streaming_writer.py:256-458 | any further dispatch is the second try of a blank, uncancelled first one, or the next round after a length stop that nothing cancelled and whose checkpoint was persisted |
| StreamingWriter.RunIsDetermined | backend/app/agents/streaming_writer.py:251-461 | the provider, the cancellations and the persistence outcomes determine all attempts of a run |
| StreamingWriter.HowRunsEnd | backend/app/agents/streaming_writer.py:392-461 | a cancelled follow-up is reported as cancelled, a checkpoint that cannot be persisted fails the run, and any other stop keeps its own reason |
| StreamingWriter.AttemptPosition | backend/app/agents/streaming_writer.py:251-258 | attempt i is within the two tries of each round so far |
| StreamingWriter.DispatchesBounded | backend/app/agents/streaming_writer.py:251-258 | at most 2 * (max_rounds + 1) provider dispatches, whatever the provider does |
| StreamingWriter.AttemptLosesNothing | backend/app/agents/streaming_writer.py:297-308 | an attempt never rewrites earlier text, and the message then ends, up to whitespace, with all it was given |
| StreamingWriter.EveryAttemptSurvives | backend/app/agents/streaming_writer.py:251-461 | whatever follows, the text of each attempt stays where it was put |
| StreamingWriter.FollowUpIsMerge | backend/app/agents/streaming_writer.py:263-308 | a follow-up is the one-shot merge if and only if the message did not already end with a text longer than the window |
| Lifecycle.AgentLifecycleEmitter.constructor | backend/app/agents/lifecycle.py:62-80 | publishing the topology gives a listener the current statuses |
| Lifecycle.AgentLifecycleEmitter.SetEdge | backend/app/agents/lifecycle.py:333-339 | an edge changes with one event, and an unchanged status emits nothing |
| Lifecycle.AgentLifecycleEmitter.RecomputeActive | backend/app/agents/graph.py:126-129 | active is the running ids in declaration order |
| Lifecycle.AgentLifecycleEmitter.EmitRunStatus | backend/app/agents/lifecycle.py:94-97 | after a run status a listener knows exactly the running nodes |
| Lifecycle.RunningIdsExactly | backend/app/agents/graph.py:126-129 | an id is listed as active if and only if its node runs |
| Lifecycle.AgentLifecycleEmitter.EmitAgentStarted | backend/app/agents/lifecycle.py:101-141 | starts if and only if the node is known, not terminal and all inbound edges are completed; a known, unfinished node with an inbound edge not completed is left waiting, announced if and only if it was not waiting, and nothing else changes |
| Lifecycle.AgentLifecycleEmitter.EmitAgentWaiting | backend/app/agents/lifecycle.py:143-151 | a non-terminal node waits; the announced active list goes stale exactly if it was running |
| Lifecycle.AgentLifecycleEmitter.HandOff | backend/app/agents/lifecycle.py:181-189 | exactly the pending outbound edges are completed, each announced as active and then completed, in edge order |
| Lifecycle.AgentLifecycleEmitter.EmitAgentCompleted | backend/app/agents/lifecycle.py:153-203 | idempotent, never revives a cancelled node, clears failure marks, hands off, and emits exactly status, handoffs and run status in that order |
| Lifecycle.AgentLifecycleEmitter.SeverOutbound | backend/app/agents/lifecycle.py:226-228 | exactly the outbound edges that are not completed fail, each announced in edge order unless it had failed before |
| Lifecycle.AgentLifecycleEmitter.EmitAgentFailed | backend/app/agents/lifecycle.py:205-235 | the node and its uncompleted outbound edges fail and everything downstream not yet started is cancelled; announced in this order: the node, the edges, the run status, the cancellations |
| Lifecycle.AgentLifecycleEmitter.EmitAgentRetrying | backend/app/agents/lifecycle.py:237-261 | any node but a cancelled one runs again with the retry shown and the error cleared |
| Lifecycle.AgentLifecycleEmitter.EmitAgentCancelled | backend/app/agents/lifecycle.py:263-272 | terminal nodes are left alone |
| Lifecycle.AgentLifecycleEmitter.ResumeApproved | backend/app/agents/approval_bridge.py:153-159 | an approved pause resumes a waiting node; replaying the events misses this change exactly when it happens |
| Lifecycle.AgentLifecycleEmitter.CollectDownstream | backend/app/agents/lifecycle.py:274-284 | the stack worklist ends on every graph, cyclic ones too, with exactly the nodes downstream |
| Lifecycle.AgentLifecycleEmitter.CancelDownstream | backend/app/agents/lifecycle.py:274-288 | exactly the downstream nodes neither terminal nor running are cancelled |
| Lifecycle.AgentLifecycleEmitter.CancelUnfinished | backend/app/agents/lifecycle.py:290-305 | no node stays open, and the returned list is the open ids in declaration order |
| LifecycleRuns.StepKeepsOrderIff | backend/app/agents/lifecycle.py:11-22 | each transition keeps the order, in which completed edges come from completed nodes and running or completed nodes have only completed inbound edges, if and only if its guard holds |
| LifecycleRuns.StepKeepsPromiseIff | backend/app/agents/lifecycle.py:13-20 | from an ordered graph each transition leaves every running node with only completed ancestors if and only if: for a failure, nothing else runs downstream; for a retry or resume that takes effect, everything upstream has completed and nothing downstream runs; for the others, always |
| LifecycleRuns.UpstreamOfRunningIsCompleted | backend/app/agents/lifecycle.py:13-15 | whenever a node runs everything upstream of it is completed |
| LifecycleRuns.RunningNodesAreIncomparable | backend/app/agents/lifecycle.py:13-18 | two running nodes are never joined by a path |
| LifecycleRuns.DisciplinedIsGuarded | backend/app/agents/lifecycle.py:205-261 | a driver that reports only on nodes it started, and retries only failed ones, meets every guard |
| LifecycleRuns.RunningMeansUpstreamCompleted | backend/app/agents/lifecycle.py:101-203 | over every run of such a driver from an all-pending graph, a running node has only completed ancestors |
| LifecycleRuns.ChainRunsOneAtATime | backend/app/agents/lifecycle.py:13-15 | a chain profile never has two running nodes |
| LifecycleRuns.RunKeepsHandoffs | backend/app/agents/lifecycle.py:21-22 | over every run, of any driver, no edge is left active and a completed node leaves no outbound edge pending |
| LifecycleRuns.StartsExactlyWhenPredecessorsCompleted | backend/app/agents/lifecycle.py:101-131 | over whole runs an unfinished node can start if and only if all predecessors have completed and no inbound edge has failed |
| LifecycleRuns.RegressionOnlyByRetry | backend/app/agents/lifecycle.py:19-20 | a terminal node goes back to running only by a retry, and by every retry unless it was cancelled |
| LifecycleRuns.SettledForever | backend/app/agents/lifecycle.py:19-20 | over every run of such a driver completed and cancelled nodes never change |
| LifecycleRuns.RunKeepsMarks | backend/app/agents/lifecycle.py:169-175 | over every run, of any driver, an error is shown exactly on failed nodes and no completed node shows a retry |
| LifecycleRuns.FailureSettlesDownstream | backend/app/agents/lifecycle.py:205-235 | after a failure every downstream node is terminal or running, and apart from the failing node exactly the others downstream changed |
| LifecycleRuns.OpenIdsExactly | backend/app/agents/lifecycle.py:290-305 | an id is listed if and only if its node was open |
| LifecycleRuns.ClosingChangesExactlyOpenNodes | backend/app/agents/lifecycle.py:290-305 | the returned ids are exactly the nodes changed, and all nodes end terminal |
| LifecycleRuns.RetryDoesNotReopenDownstream | backend/app/agents/lifecycle.py:193-235 | after failure, retry and success, failed edges stay failed and cancelled nodes stay cancelled |
| LifecycleRuns.LateRetryBreaksSequence | backend/app/agents/lifecycle.py:237-261 | without the driver's discipline two stages of a sequence can run at once |
| LifecycleEffects.StatusAfterStep | backend/app/agents/lifecycle.py:101-305 | for each node and status, exactly the steps that give it: all others leave the status the node has |
| LifecycleEffects.MarksAfterStep | backend/app/agents/lifecycle.py:153-261 | failing records its own error, completing clears both marks, retrying shows its attempt and error in place of the failure, and nothing else touches the marks |
| LifecycleEffects.EdgesAfterStep | backend/app/agents/lifecycle.py:181-228 | an edge changes only when its source completes, if it was pending, or fails, if it was not completed |
| LifecycleEffects.StatusHasAReason | backend/app/agents/lifecycle.py:11-22 | over every run of any driver, a status that a node did not have at first was given to it by one of the steps |
| LifecycleEffects.EndedForAReason | backend/app/agents/lifecycle.py:205-305 | over every run a node is over only because it completed, failed or was cancelled itself, the run was closed, or a node upstream failed |
| LifecycleEffects.EarlyStartIsHarmless | backend/app/agents/lifecycle.py:117-128 | over every disciplined run, a start that came too early changes nothing: the next start leads to the same graph as if the early one had not been |
| LifecycleEffects.AcyclicGraphFinishes | backend/app/agents/lifecycle.py:186-188 | every acyclic graph has a disciplined run after which all nodes have completed and all edges are handed off |
| LifecycleEffects.HandoffsExactly | backend/app/agents/lifecycle.py:181-189 | a completion announces exactly the pending outbound edges, in edge order, each as active and then as completed |
| LifecycleEffects.SeveringsExactly | backend/app/agents/lifecycle.py:226-228 | a failure announces exactly the outbound edges neither completed nor failed, in edge order |
| LifecycleEffects.RunningInOrder | backend/app/agents/graph.py:126-129 | running nodes are listed in declaration order |
| LifecycleEffects.OpenInOrder | backend/app/agents/lifecycle.py:298-305 | and so are the nodes that closing a run cancels |
| Compaction.TailStartUnique | backend/app/agents/context_compaction.py:122-133 | the budgeted tail is determined: within budget unless only the newest message, and not extendable |
| Compaction.TailStart | backend/app/agents/context_compaction.py:122-133 | such a tail exists for every cost and budget |
| Compaction.PickTail | backend/app/agents/context_compaction.py:122-133 | the newest-first walk and the reversal give that suffix and its cost |
| Compaction.IndexPairs | backend/app/agents/context_compaction.py:240-253 | the last caller and all results of every call id |
| Compaction.CloseOverPairs | backend/app/agents/context_compaction.py:255-280 | the worklist ends with exactly the least closed superset of the tail |
| CompactionProperties.ClosureMeaning | backend/app/agents/context_compaction.py:224-236 | the closure contains the tail, is closed under caller and result links, and is inside every set that is |
| Compaction.SplitForCompaction | backend/app/agents/context_compaction.py:87-142 | the whole split: leading blocks, tail, older part and tokens used |
| Compaction.CompactMessages | backend/app/agents/context_compaction.py:145-221 | unchanged with an empty summary when nothing is older, and otherwise leading blocks, one summary of the older messages in order, and the kept tail |
| CompactionProperties.CompactedCarriesSummary | backend/app/agents/context_compaction.py:145-221 | when something is older, the result is the lead, then one system message that holds the header applied to the summary followed by that summary of exactly the older messages in order, then the kept ones in order; the same summary is returned |
| CompactionProperties.NothingOlder | backend/app/agents/context_compaction.py:206-214 | when nothing is older the messages come back as they are, with no summary |
| CompactionProperties.LeadIs | backend/app/agents/context_compaction.py:104-120 | the lead is all leading system messages and then as many messages as are protected and there |
| CompactionProperties.KeptIs | backend/app/agents/context_compaction.py:122-138 | what is kept is the budgeted suffix, and with pair preservation its closure over pairs |
| CompactionProperties.CostIsSum | backend/app/agents/context_compaction.py:126-130 | the cost of a suffix is what its messages cost together |
| CompactionProperties.SplitPartitionsBody | backend/app/agents/context_compaction.py:140-142 | tail and older part together are the body, disjoint and each in original order |
| CompactionProperties.KeptIsClosed | backend/app/agents/context_compaction.py:135-138 | what is kept contains the budgeted tail and no half unit |
| CompactionProperties.KeptResultsFollowCalls | backend/app/agents/context_compaction.py:224-236 | a kept tool result has its call kept in front of it |
| CompactionProperties.KeptPairsComplete | backend/app/agents/context_compaction.py:193-197 | a call is kept if and only if a result of it is |
| CompactionProperties.UniqueCallsFollowLastCaller | backend/app/agents/context_compaction.py:244-249 | with unique call ids, following the call is following its last caller |
| CompactionProperties.CompactionKeepsTranscriptValid | backend/app/agents/context_compaction.py:170-221 | for every budget, cost and summariser a valid transcript stays valid and its leading blocks stay untouched, when no pair straddles the protected block and no call id is reissued after its answer |
| CompactionProperties.UnprotectedCompactionIsValid | backend/app/agents/context_compaction.py:170-221 | without a protected block, unique call ids are enough |
| CompactionProperties.ReusedIdOrphansResult | backend/app/agents/context_compaction.py:240-253 | a call id reused after its answer leaves an orphaned result |
| CompactionProperties.ProtectedBlockCanHalveAPair | backend/app/agents/context_compaction.py:114-120 | a protected block that ends inside a pair leaves a call without result |
| CompactionExactness.BudgetStartsAt | backend/app/agents/context_compaction.py:122-133 | any suffix of the body is the tail of some budget |
| CompactionExactness.JoinedFollowsIff | backend/app/agents/context_compaction.py:145-167 | in the rebuilt list results follow calls if and only if each kept result has its call in the leading block or kept in front of it |
| CompactionExactness.JoinedPairsIff | backend/app/agents/context_compaction.py:145-167 | and no pair is then halved if and only if each call left open in the leading block is answered by a kept message |
| CompactionExactness.CompactionIsValidIff | backend/app/agents/context_compaction.py:170-221 | for each cost, budget and protected block, a valid transcript is compacted to a valid one if and only if what is kept meets both conditions |
| CompactionExactness.TranscriptIsSafeIff | backend/app/agents/context_compaction.py:193-201 | a valid transcript with a protected block of any length survives every budget if and only if both hold wherever the tail starts |
| CompactionCases.NewestIsKept | backend/app/agents/context_compaction.py:122-138 | every budget keeps at least the newest message and its closure |
| CompactionCases.ProtectedBlockIsSafeIff | backend/app/agents/context_compaction.py:199-201 | with unique call ids that is if and only if the open calls of the leading block are answered by messages that are always kept |
| CompactionCases.EveryBudgetIsSafeIff | backend/app/agents/context_compaction.py:193-197 | without a protected block it is if and only if, wherever the tail starts, each result its closure drags in in front of its last caller comes with an earlier caller |
| CompactionCases.ReusedAloneIsSafeIff | backend/app/agents/context_compaction.py:240-253 | when messages that issue a reused id issue no other, that is if and only if each result follows the last message that issues its call |
| Quotas.QuotaService.SetAdd | backend/app/quotas.py:180-185 | adds the member to this tenant only |
| Quotas.QuotaService.SetRemove | backend/app/quotas.py:187-193 | removes the member from this tenant only |
| Quotas.QuotaService.PurgeExpiredRuns | backend/app/quotas.py:406-416 | removes exactly the members whose deadline has passed |
| Quotas.QuotaService.Reserve | backend/app/quotas.py:368-395 | admits if and only if fewer live members than the limit; a refusal leaves exactly the live members and reports their number |
| Quotas.QuotaService.AdmitRun | backend/app/quotas.py:336-395 | the order of the checks, each refusal's reason, and other tenants untouched |
| Quotas.QuotaService.ReleaseRun | backend/app/quotas.py:418-441 | removes exactly the run's own members; disabled quotas and empty tickets change nothing |
| Quotas.ReleaseUndoesAdmission | backend/app/quotas.py:418-426 | a release gives back exactly what the admission took, and a second one changes nothing |
| QuotaProtocol.StepKeepsInvariant | backend/app/quotas.py:336-441 | every atomic step of any concurrent admission, purge, release or clock tick keeps the reservation invariant |
| QuotaProtocol.MembersLeaveForAReason | backend/app/quotas.py:381-394 | a member leaves only because it expired, its run was released, or its own refused admission takes it back |
| QuotaProtocol.LimitAlwaysHolds | backend/app/quotas.py:336-441 | under every interleaving the admitted, unreleased, unexpired runs never exceed the limit, and a refused run holds no member |
| QuotaProtocol.UninterruptedIsReserve | backend/app/quotas.py:374-395 | the steps of one admission that nothing interrupts give the sequential result |
| QuotaProtocol.AdmissionCanEnd | backend/app/quotas.py:374-395 | from every state, whatever other calls are doing, an admission can go on to its end by its own steps |
| QuotaProtocol.AdmissionIsDecided | backend/app/quotas.py:374-395 | and run alone it is admitted if and only if fewer live members than the limit are there |
| QuotaProtocol.ReleaseTakesBack | backend/app/quotas.py:418-441 | a release is possible at any time and takes back any member of its run |
| QuotaProtocol.TimePasses | backend/app/quotas.py:374-394 | time passes between any two steps and changes nothing else |
| ToolQuota.GuardedRunsRespectTheCap | backend/app/quotas.py:575-592 | over every interleaving in which no call finds its tool in the set while it is still undecided, the distinct tools allowed never exceed the cap |
| ToolQuota.CapIsSafeIff | backend/app/quotas.py:575-592 | after such a run an add is safe, in that no such continuation exceeds the cap, if and only if it does not find its tool undecided |
| ToolQuota.UninterruptedCall | backend/app/quotas.py:575-592 | a call that nothing interrupts is allowed if and only if its tool has been used before or fewer distinct tools than the cap have; a refused one leaves the set as it was |
| ToolQuota.ConcurrentCallsCanExceedTheCap | backend/app/quotas.py:561-592 | an interleaving of three calls that exceeds the cap |
| EventStore.CleanInsertIsNext | backend/app/models/run_event.py:16-25 | an insert the constraint admits takes the very next sequences, and no other session then holds uncommitted rows |
| EventStore.ConflictMeansProgress | backend/app/agents/events.py:84-88 | a conflict means another transaction committed after the maximum was read |
| EventStore.GivingUpTakesThreeCommits | backend/app/agents/events.py:56-61 | an append gives up, and then adds nothing, only after three other transactions committed rows during the call |
| EventStore.StepKeepsInvariant | backend/app/agents/events.py:44-130 | every step of every session keeps the log dense and made of whole batches |
| EventStore.LogIsDenseAndWhole | backend/app/agents/events.py:44-130 | under every interleaving a run's committed sequences are exactly 1..n and the log is the committed calls' batches, each once and contiguous |
| EventStore.RacedInsert | backend/app/agents/events.py:65-92 | in the interleaving model an attempt behaves as the sequential one: it succeeds if and only if nothing was committed since its read, and is otherwise retried, given up or fatal to the batch's transaction |
| EventProgress.CallGoesThrough | backend/app/agents/events.py:65-130 | from every reachable state, a call in an idle session while no other session holds uncommitted rows goes through, its events right after the rows of the log and of its own transaction |
| EventProgress.CommitPublishes | backend/app/agents/events.py:66-83 | a commit moves what the session holds to the end of the log |
| EventProgress.RollBackForgets | backend/app/agents/events.py:84-88 | a rollback forgets what the session holds and changes nothing else |
| EventProgress.OnlyCommitsGrowTheLog | backend/app/agents/events.py:56-61 | the log grows by commits of held rows, which are counted, and by nothing else |
| EventProgress.EmptyBatchDoesNothing | backend/app/agents/events.py:109-110 | a batch of no events changes nothing |
| EventProgress.AppendAndCommit | backend/app/agents/events.py:44-83 | a fresh session that nothing disturbs can append an event as the next row and commit it |
| EventStore.EventLog.TryAppend | backend/app/agents/events.py:66-83 | one attempt succeeds if and only if nobody committed between its read and its insert |
| EventStore.EventLog.Append | backend/app/agents/events.py:44-92 | succeeds if and only if one of three attempts is not raced; the event is then appended once after what others committed, and otherwise nothing is |
| EventStore.EventLog.AppendMany | backend/app/agents/events.py:94-130 | succeeds if and only if it is not raced or empty; the batch is appended whole or not at all |
| EventTail.ReplayIsSuffix | backend/app/agents/events.py:132-144 | a replay returns exactly the part of the log after the cursor |
| EventTail.MoveKeepsSynced | backend/app/api/agent_runs.py:537-574 | appends, polls, deliveries, disconnects and reconnects keep received plus in-flight frames equal to the log up to the cursor |
| EventTail.ClientSeesAPrefix | backend/app/api/agent_runs.py:585-599 | over any number of reconnects at the last received id the client has a prefix of the log: in order, no gap, no duplicate |
| EventTail.PollCatchesUp | backend/app/api/agent_runs.py:546-557 | after a poll, received and in-flight frames are the whole log |
| EventTail.ReconnectResumes | backend/app/api/agent_runs.py:585-599 | a dropped connection loses only what was in flight; the next one starts right after what was received |
| EventTail.ClientCanCatchUp | backend/app/api/agent_runs.py:537-574 | from every state of a run, connected or not, the client can come to have the whole log |
| EventTail.EventReachesClient | backend/app/api/agent_runs.py:537-574 | from every such state in which no session holds uncommitted rows, an event can be appended and reach the client, as the next row |
| UsageMeter.LLMUsageCoordinator.BeginStage | backend/app/agents/stage_context.py:108-125 | only the first available snapshot sets the baseline; with one in place nothing changes |
| UsageMeter.LLMUsageCoordinator.ClaimUsage | backend/app/agents/stage_context.py:127-145 | after a baseline, gives out exactly the counters that grew since the last claim, each by how much, or nothing when none grew, and before one nothing |
| UsageMeter.MeterHoldsLast | backend/app/agents/stage_context.py:123-144 | the meter always holds the last counted snapshot of its model |
| UsageMeter.GivenIsGrowth | backend/app/agents/stage_context.py:127-145 | over any interleaving of stages, claims give out exactly the increases between counted snapshots |
| UsageMeter.ClaimsAddUpIff | backend/app/agents/stage_context.py:81-82 | the claims add up to last value minus baseline if and only if the counter never went down |
| UsageMeter.ModelsAreIndependent | backend/app/agents/stage_context.py:87-106 | a step on another model, wherever it stands in a run, changes neither a model's meter nor what was given out for it |
| PatchText.SplitUndoesJoin | backend/app/agents/apply_patch.py:63 | splitting joined lines gives the lines back |
| PatchText.LinesAreTheText | backend/app/agents/apply_patch.py:63 | splitting loses only line ends: the lines contain none, and with their ends, a carriage return and line feed being one, they are the text |
| Text.StripDropsSurroundings | backend/app/agents/apply_patch.py:82 | trimming takes exactly the surrounding whitespace away |
| PatchParser.SkipToBegin | backend/app/agents/apply_patch.py:67-70 | stops right after the first line that trims to a begin marker, or at the end of a text without one |
| PatchParser.ParsePatch | backend/app/agents/apply_patch.py:61-128 | the loop computes the parse of the text's lines |
| PatchBlocks.ParseReadsBlocks | backend/app/agents/apply_patch.py:61-128 | for every text: one operation for each header line between the first begin marker and the first end marker after it, in order, made of the lines up to the next header or unknown section: the last move line, the body without its plus signs, or all edits as one hunk |
| PatchBlocks.PartsOfText | backend/app/agents/apply_patch.py:68-84 | every text with a begin marker has these parts |
| PatchBlocks.ProseIsSkipped | backend/app/agents/apply_patch.py:67-70 | lines before the first that trims to text starting with "*** Begin Patch" change nothing |
| PatchBlocks.NoMarkerNoOperations | backend/app/agents/apply_patch.py:67-80 | a text without such a line has no operations |
| PatchBlocks.TagsDecide | backend/app/agents/apply_patch.py:83-101 | what a trimmed line starts with decides what it is; the rest, trimmed, is the path |
| PatchBlocks.OtherStarsAreSections | backend/app/agents/apply_patch.py:102-105 | any other line that trims to three stars and more is an unknown section |
| PatchBlocks.MarkersDecide | backend/app/agents/apply_patch.py:111-124 | the leading plus, minus or two at-signs of a content line decide whether the rest is added, removed or context |
| PatchBlocks.BlockEndsAtBoundary | backend/app/agents/apply_patch.py:102-105 | a block ends right before the first header or unknown section |
| PatchBlocks.MoveIsLast | backend/app/agents/apply_patch.py:97-98 | of several move lines in a block the last one counts |
| PatchBlocks.EachContentLineCounts | backend/app/agents/apply_patch.py:106-124 | each content line of a block counts where it stands, and no other line does |
| PatchRoundTrip.RepresentableIff | backend/app/agents/apply_patch.py:102-124 | a context text can come from a patch line if and only if it does not start with whitespace and trim to a section header |
| PatchRoundTrip.ParseGivesParsed | backend/app/agents/apply_patch.py:61-128 | for every text, each operation has trimmed paths, an added file has a body and no hunks, and any other at most one hunk, not empty |
| PatchRoundTrip.ParseUndoesPrintIff | backend/app/agents/apply_patch.py:6-14 | parsing the printed text gives the operations back if and only if the parser can produce them |
| PatchRoundTrip.PrintIsNormalForm | backend/app/agents/apply_patch.py:61-128 | for every text, printing what was parsed and parsing again changes nothing |
| PatchApply.FindSubseq | backend/app/agents/apply_patch.py:180-188 | the first place where the block stands up to surrounding whitespace, or none |
| PatchApply.ApplyHunk | backend/app/agents/apply_patch.py:164-177 | fails if and only if the anchored block stands nowhere; otherwise replaces its first match, or appends without an anchor |
| PatchApply.SplicesUnique | backend/app/agents/apply_patch.py:164-177 | a hunk has one result |
| PatchApply.SpliceLength | backend/app/agents/apply_patch.py:164-177 | a hunk changes the length by added minus removed lines |
| PatchApply.LinesInOrder | backend/app/agents/apply_patch.py:166-167 | the block looked for and its replacement follow the order of the hunk |
| PatchApply.OneLineHunk | backend/app/agents/apply_patch.py:166-167 | a context line is looked for and kept, a removed one looked for and dropped, an added one put in |
| PatchApply.AddedLinesAreAppended | backend/app/agents/apply_patch.py:168-170 | a hunk of added lines only appends them to the file |
| PatchApply.BlockIsReplacedAtFirstMatch | backend/app/agents/apply_patch.py:171-177 | any other hunk replaces the first place where all its context and removed lines stand, once trimmed |
| PatchApply.BlockIsNowhere | backend/app/agents/apply_patch.py:171-176 | a hunk with such lines fails if and only if there is no such place |
| PatchApply.HunksInOrder | backend/app/agents/apply_patch.py:154-156 | hunks apply one after the other, each to what the ones before it made of the file |
| PatchApply.OperationsInOrder | backend/app/agents/apply_patch.py:141-161 | operations apply one after the other, each to the files as the ones before it left them |
| PatchApply.ContextUntouchedIff | backend/app/agents/apply_patch.py:137-138 | a hunk leaves its context lines alone if and only if they are spelled exactly as in the file |
| PatchApply.IndentationCanBeLost | backend/app/agents/apply_patch.py:121-122 | an anchor after `@@` replaces an indented file line by an unindented one |
| PatchApply.ReversedHunkRestores | backend/app/agents/apply_patch.py:164-177 | the reversed hunk restores the file, when the block was spelled exactly and its replacement stands nowhere earlier |
| PatchApply.ApplyHunks | backend/app/agents/apply_patch.py:154-156 | all hunks in order, or a failure when one of them cannot be placed |
| PatchApply.Workspace.ApplyOp | backend/app/agents/apply_patch.py:143-160 | one operation: its delta and new files, or its error and unchanged files |
| PatchApply.Workspace.ApplyOps | backend/app/agents/apply_patch.py:134-161 | atomic per operation: on an error at operation i the files are those of operations 0..i-1, even if hunks of i had matched |
| PatchApply.PerformsUnique | backend/app/agents/apply_patch.py:143-160 | an operation has one result |
| PatchApply.FailsMeansNoResult | backend/app/agents/apply_patch.py:147-176 | an operation never both fails and has a result |
| PatchApply.UnnamedFilesUntouched | backend/app/agents/apply_patch.py:134-161 | files that no operation names stay the same |
| PatchApply.MoveRemovesOldPath | backend/app/agents/apply_patch.py:157-160 | an update with a non-empty new path is exactly this: its result stands at the new path, the old path is gone unless it is the new one, and no other file changes |
| PatchApply.UpdateInPlace | backend/app/agents/apply_patch.py:151-160 | one without is exactly this: the file has its result, and no other file changes |
| PatchApply.AddAndDelete | backend/app/agents/apply_patch.py:143-150 | adding writes the body over any file of that path, deleting removes a file that is there, and neither does anything else |
| PatchApply.WhyItFails | backend/app/agents/apply_patch.py:147-176 | an operation fails if and only if the file to delete or update is missing, or one of its hunks stands nowhere in what the ones before it made |
| SpawnGraph.GroupByParent | backend/app/agents/agent_graph_store.py:82-84 | the stored edges of each parent, in stored order |
| SpawnGraph.LinkIsEdge | backend/app/agents/agent_graph_store.py:91-92 | a traversal follows open edges, and closed ones only if asked to |
| SpawnGraph.ExpandNode | backend/app/agents/agent_graph_store.py:90-96 | a node's admitted edges are listed and its unseen children queued once each |
| SpawnGraph.Descendants | backend/app/agents/agent_graph_store.py:79-97 | ends on every edge list; an edge is listed once if its parent is the root, once more if its parent is downstream of the root, and never if not admitted; by non-decreasing distance and in stored order within a parent when the root is on no cycle |
| SpawnGraph.AllFound | backend/app/agents/agent_graph_store.py:87-96 | the nodes queued after the root are exactly those downstream of it |
| SpawnGraph.NewChildIsPlaced | backend/app/agents/agent_graph_store.py:94-96 | an unseen child is queued at its distance from the root, unless it is the root again |
| SpawnGraph.OutputExactly | backend/app/agents/agent_graph_store.py:91-93 | visiting the root and each node downstream once lists every edge as often as stated |
| SpawnGraph.OutputByDistance | backend/app/agents/agent_graph_store.py:80 | in the order found, edges are listed breadth first when the root is on no cycle |
| SpawnGraph.OutputInStoredOrder | backend/app/agents/agent_graph_store.py:82-93 | and the edges of one parent in the order in which they are stored |
| Plan.DepthFromDependencies | backend/app/agents/graph.py:516-518 | one more than the greatest depth of the dependencies is the length of the longest chain |
| Plan.DepthUnique | backend/app/agents/graph.py:512-521 | a step has one such length |
| Plan.EdgeIncreasesStage | backend/app/agents/graph.py:512-521 | every dependency edge strictly increases it |
| PlanOrder.StuckMeansCycle | backend/app/agents/workflow/schemas.py:224-227 | steps that all wait for each other hold a dependency cycle |
| PlanOrder.EmitReady | backend/app/agents/workflow/schemas.py:228-232 | a round emits exactly the ready steps, in declared order, each after its dependencies |
| PlanOrder.Toposort | backend/app/agents/workflow/schemas.py:217-233 | ends on every plan; gives an order if and only if all dependencies are known and none is circular; the order has each step once, after its dependencies, by depth, and in declared order within one depth; an error names exactly the steps that can never run |
| PlanOrder.Validate | backend/app/agents/workflow/schemas.py:236-253 | no error if and only if ids are unique and dependencies known and not circular; the first that fails is reported, naming the first repeated id, the first unknown dependency and its step, or the steps that can never run |
| PlanStages.StageDepths | backend/app/agents/graph.py:512-521 | stages exist if and only if dependencies are known and not circular, and each step's stage is then the length of its longest dependency chain |
| PlanStages.LaneIndexes | backend/app/agents/graph.py:524-532 | a step's lane is the number of earlier steps in its stage |
| PlanStages.CountIsSize | backend/app/agents/graph.py:527-531 | the count behind a lane is the number of earlier positions whose step has that stage, zero when it has none |
| PlanStages.LanesAreDistinct | backend/app/agents/graph.py:524-532 | no two steps share stage and lane |
| PlanStages.LanesAreDense | backend/app/agents/graph.py:524-532 | every lane below a stage's count belongs to some step of it |
| PlanStages.LanesAreBounded | backend/app/agents/graph.py:524-532 | no lane reaches the stage's count |

## Left out

- ClientSeesAPrefix: safety only; the tail loop may also stop on the run's status alone, and its polling intervals, heartbeats, stop conditions and frame text are not modelled.
- Stream: usage records, checkpoints and message metadata are not modelled, nor is the pause that only delays chunks; persistence is an outcome that may fail.
- AdmitRun: asks that the run id is not yet in use, as a fresh random id is; the sequential contract excludes other calls, and `QuotaProtocol` states what holds when they interleave, where an admission may be refused although a slot is about to be freed.
- Toposort: takes unique step ids, which `Validate` checks first; with a duplicate id the program's removal of the second one fails.
- The Redis store, its fallback to memory and mixed use of both; one consistent store is assumed. Period buckets, usage charging, storage and connector limits add only single-call members.
- The text form of a quota member, "run id @ deadline"; it is a pair here.
- Timestamps, durations, usage, cost, titles and the current tool of a node; edge ids are positions in the edge list, and node ids are unique.
- How the database makes an insert wait and raises the conflict; the unique constraint is modelled by its effect, at the isolation level where a query sees what is committed.
- Token estimation, the summariser and the summary header are arbitrary functions; a message is identified by its position.
- Weak references and reuse of object identities in the usage coordinator; a model is its key, and a locked region is one step.
- The thresholds that decide when to compact, the context manager's budgets, event deduplication and usage records of a stage, and closing spawn edges in the JSON store: short, and covered by what they call.
- Characters are Unicode scalar values; lone surrogates are outside the model.
- HTTP routing, ownership checks, SQL text, prompts and configuration.
