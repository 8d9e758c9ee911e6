# A model of the checkpoint-and-replay runtime

This project models the logic of a checkpoint/restore runtime for agents and of the pipeline that replays and measures it, and proves what that logic promises.

* **Replay schedules** (`Schedule`, `Actions`, `Files`, `GuestEdits`, `TreeSchedule`, `TreeReplay`, `TreeAcceptance`, `TreeEvents`, `TreeTheorems`, `LegacySchedule`, `LegacyEvents`, `LegacyReplay`). A recorded search tree, or a log of transitions with parent pointers, is compiled into a line of `ckpt` and `restore` events. Events have a small-step meaning over *any* deterministic worker: a `ckpt` does its work and stores the state under its ID, a `restore` loads a stored state. The reference for a state is the recorded root-to-node path.
* **The image digest cache** (`DigestCache`): a state machine in which file changes interleave with every step of a lookup, and the uninterrupted lookup as an object.
* **The worker and its network proxy** (`Worker`, `RequestIds`, `Lines`): a state machine with snapshots that include the table of pending requests, arbitrary notify lines, epochs and an epoch filter.
* **Streaming and sweeping** (`SerialMonitor`, `Phases`, `Extents`): a log monitor, a span sweep and an extent scan, each against a pointwise meaning.
* **The two-node work queue** (`WorkQueue`), **recorded orders** (`RecordedOrder`) and **statistics with their consumers** (`Statistics`).

`dafny verify dfyconfig.toml` checks the whole project.

## Results that differ from what the code seems to promise

* The tree compiler rebuilds every root-to-node path exactly for *aligned* trees (`TreeReplay.RebuildsIffAligned`). A node is aligned when it starts from its nearest ancestor that ran. This fails only for nodes whose parent took no checkpoint before them, and exactly when the last node expanded before such a node that ran, or was jumped to, ended on another path (`TreeTheorems.AlignedIffOrphansAtHome`). Trees with increasing IDs and childless duplicates are aligned (`TreeTheorems.RecordedAligned`). A duplicate with two children is not: the second child gets no restore and continues from the first, the validator accepts the schedule, and the stored state is wrong (`TreeTheorems.TwoUnderDuplicateWrong`).
* The log compiler rebuilds every recorded line of descent if and only if every checkpoint comes after that of its nearest recorded ancestor that takes one (`LegacyReplay.RebuildsIffInOrder`). A parent that stands later in the log is passed by: the walk goes on to an earlier ancestor, the schedule is accepted, and the parent's work is missing (`LegacyReplay.LateParentLost`); a lightweight checkpoint then holds other files than its standard parent (`LegacyReplay.LateParentFiles`).
* Rewrites and line insertions are tagged as mutating but have no translation. A tree in which a node below the root ran with one is always rejected (`TreeAcceptance.RewritesRefused`); on a duplicate, which takes no checkpoint, any action is accepted (`TreeAcceptance.DuplicatesAcceptAnything`). The exact condition for acceptance is `TreeAcceptance.TreeAcceptedIff`.
* The serial monitor never hides an in-line match of up to 65537 bytes, one more than its window, whatever the reads; every longer span can be hidden, also for the kernel messages it searches for (`SerialMonitor.SpanExact`).
* The worker's prompt is bounded over all runs exactly for positive turn limits (`Worker.PromptBoundedIff`); with a limit of zero the slice `body[-(2*0-1):]` drops one message and keeps all others.
* `npd.py` says that its epoch filter makes stale responses invisible after a restore, whatever is pending. The check and the publication are separate steps, so a response can pass the check, outlive the restore and be consumed (`Worker.StaleResponseRace`). Exactly: in any reachable state, the response to a request issued so far can still be consumed after a restore if and only if it is past the filter and some snapshot has the request pending (`Worker.StaleConsumableIff`). Even then it answers its own branch's request (`Worker.BranchesNeverMix`).
* Summaries of timings satisfy their consumer exactly when all samples are positive (`Statistics.SummaryPasses`); the summary itself is also computed for others.
* `npd.py` calls the request lines hex UUIDs of at most 33 bytes; the code writes `ep<N>.<uuid>` lines, which are longer. The model follows the code.

## Model

| member | source | states |
|---|---|---|
| Schedule.ValidateSchedule | replay/make_schedule.py:16-42 | accepts exactly the schedules in which every restore names an earlier checkpoint and every checkpoint has a new ID, an allowed strategy, a latency and supported work; otherwise names the first illegal event |
| Schedule.AcceptedMeans | replay/make_schedule.py:16-42 | acceptance in plain terms: no unknown event, restores name earlier checkpoints, IDs distinct and present, strategies allowed, latencies nonnegative, work present where required and supported |
| Schedule.AcceptedRuns | replay/make_schedule.py:16-42 | an accepted schedule never gets stuck on any worker and leaves exactly the checkpoints it introduces |
| Schedule.StoredForGood | replay/make_schedule.py:25-28 | later events never change a stored checkpoint |
| Schedule.PrefixAccepted | replay/run_instance.py:518-527 | every nonempty prefix of an accepted schedule is accepted |
| Schedule.TruncationIsSafe | replay/run_instance.py:518-527 | truncating after validation keeps acceptance and the stored states, for every worker |
| Actions.LightweightIsReadOnly | replay/tree_to_schedule.py:61-193 | strategy tagging and op translation agree: a lightweight node carries only read-only ops |
| Actions.HandledIffSupported | replay/make_schedule.py:38-40 | a node's ops pass the validator's test exactly when every recorded action has a translation |
| Actions.LightweightIffReadOnly | replay/tree_to_schedule.py:47-58 | for supported actions a node is lightweight if and only if all its operations only read |
| Actions.NodeOpsAppend | replay/tree_to_schedule.py:139-162 | steps are translated one by one in their recorded order |
| Actions.TranslationRoundTrip | replay/tree_to_schedule.py:81-133 | the operation of a search, edit or test run tells its class and every argument that matters |
| Actions.ViewOpsAt | replay/tree_to_schedule.py:72-80 | a view reads the named files in order, each with its own lines |
| Actions.ShortNameOfDotted | replay/tree_to_schedule.py:70 | the class is the part of a dotted name after its last dot |
| Files.StepsInOrder | replay/tree_to_schedule.py:139-162 | for every worker on files, the effect of a node is the effect of its steps one after the other |
| GuestEdits.CreateFileWrites | replay/guest/agent.py:922-929 | a recorded file creation, translated and executed, leaves that text and every other file alone |
| GuestEdits.AppendStringAppends | replay/guest/agent.py:930-937 | a recorded append adds its text at the end |
| GuestEdits.StringReplaceEdits | replay/guest/agent.py:905-921 | a recorded replacement exchanges the first occurrence of the old text for the new |
| GuestEdits.StringReplaceMisses | replay/guest/agent.py:905-921 | without an occurrence it changes nothing |
| GuestEdits.CreateThenReplace | replay/tree_to_schedule.py:139-162 | a file created by one step is edited by the next |
| Files.ReadOnlyKeepsFiles | replay/tree_to_schedule.py:18-23 | read-only ops leave files alone under every interpretation of ops |
| TreeSchedule.WalkFacts | replay/tree_to_schedule.py:171-175 | the pre-order walk yields every node under its parent's path, and paths built only of nodes that ran |
| TreeSchedule.ById | replay/tree_to_schedule.py:250-256 | the expansion order holds visited nodes with an ID, in strictly increasing order of ID |
| TreeSchedule.ByIdComplete | replay/tree_to_schedule.py:250-256 | with distinct IDs no node with an ID is lost from the expansion order |
| TreeSchedule.ByIdKeepsLast | replay/tree_to_schedule.py:253 | of several nodes with one ID exactly the last visited is kept |
| TreeSchedule.ConvertRow | replay/tree_to_schedule.py:263-318 | one turn of the loop emits the restore a jump needs and the checkpoint of a node that ran |
| TreeSchedule.Convert | replay/tree_to_schedule.py:243-318 | the loop computes the compiled schedule; it fails exactly when no node has an ID |
| TreeSchedule.CompileTracks | replay/tree_to_schedule.py:258-318 | the compiler's table holds exactly the checkpoints of earlier nodes that ran |
| TreeSchedule.CompileRuns | replay/tree_to_schedule.py:263-318 | while rows are aligned, the run holds the expected path and has rebuilt every path so far, for every worker |
| TreeReplay.TimeEvents | replay/make_schedule.py:67-77 | timing sets strategies and latencies, by recorded value or mean |
| TreeReplay.LatenciesInOrder | replay/make_schedule.py:67-77 | the i-th checkpoint carries the i-th recorded latency, and those beyond the record the mean |
| TreeReplay.TimedFields | replay/make_schedule.py:67-77 | timing makes checkpoints standard unless adaptive and keeps IDs and work |
| TreeReplay.TimedRun | replay/make_schedule.py:67-77 | timing changes nothing about what a schedule does |
| TreeReplay.AlignedRebuilds | replay/tree_to_schedule.py:243-318 | for every worker, an accepted schedule of an aligned tree stores under each node's checkpoint the state of its root-to-node path |
| TreeReplay.RebuildsIffAligned | replay/tree_to_schedule.py:284-318 | an accepted schedule rebuilds all paths if and only if the tree is aligned |
| TreeAcceptance.RestoresNameEarlier | replay/tree_to_schedule.py:286-296 | in the schedule of every tree, accepted or not, each restore names an earlier checkpoint |
| TreeAcceptance.WalkAllNodes | replay/tree_to_schedule.py:171-175 | below the root, every visited row belongs to a node of the tree and every node has a row |
| TreeAcceptance.TreeAcceptedIff | replay/make_schedule.py:16-42 | a timed tree schedule is accepted if and only if some node takes a checkpoint, checkpoint IDs are present and distinct, and every node that ran below the root has an action and only actions with a translation |
| TreeAcceptance.RewritesRefused | replay/tree_to_schedule.py:47-54 | a rewrite or line insertion on a node that ran is tagged as mutating and gets the whole tree rejected |
| TreeAcceptance.DuplicatesAcceptAnything | replay/tree_to_schedule.py:298-301 | on a duplicate the same action is accepted |
| TreeAcceptance.MakeSchedule | replay/make_schedule.py:45-78 | compile, time and validate; with distinct IDs it succeeds exactly when latencies are present and nonnegative and the tree is acceptable |
| TreeEvents.CkptsInOrder | replay/tree_to_schedule.py:263-318 | the checkpoints are those of the nodes that ran, in order of ID, each with its node's strategy and operations |
| TreeEvents.RestoresInOrder | replay/tree_to_schedule.py:286-296 | the restores are exactly those called for by jumps to a parent that has a checkpoint |
| TreeTheorems.RecordedAligned | replay/tree_to_schedule.py:11-14 | increasing IDs and childless duplicates make a tree aligned |
| TreeTheorems.RecordedRebuilds | replay/tree_to_schedule.py:11-16 | for every worker, an accepted schedule of a recorded tree rebuilds every root-to-node path |
| TreeTheorems.AlignedIffOrphansAtHome | replay/tree_to_schedule.py:286-301 | alignment fails only where a parent is looked up in vain: aligned if and only if, for every such node, the last earlier node that ran or was jumped to ended on the path the node starts from |
| TreeTheorems.TwoUnderDuplicateWrong | replay/tree_to_schedule.py:286-301 | the schedule of a duplicate with two children is accepted, for any replayable steps and distinct checkpoint IDs, and does not rebuild its paths |
| TreeTheorems.FilesSinceStandard | replay/tree_to_schedule.py:265-316 | along a path, files change only at standard work |
| TreeTheorems.LightweightFiles | replay/tree_to_schedule.py:265-316 | in an adaptive schedule each checkpoint holds the files of its nearest standard ancestor, which exists |
| LegacySchedule.ParentCheckpoint | replay/legacy_schedule.py:59-67 | the loop terminates and computes the parent walk |
| LegacySchedule.ParentWalkFindsNearest | replay/legacy_schedule.py:59-67 | the walk reports a cycle exactly when pointers never end, and otherwise answers for the nearest checkpointed ancestor, the bootstrap, or a missing parent |
| LegacySchedule.ConvertLegacy | replay/legacy_schedule.py:43-96 | the loop over transitions computes the compiled log, or the first error |
| LegacyEvents.TransitionOpsAre | replay/legacy_schedule.py:72-83 | a transition reads its named files in order and then applies the repairs of its nonempty diffs in order; exact conditions for both refusals |
| LegacyEvents.DiffOpsAppend | replay/legacy_schedule.py:76-81 | diffs are applied in the order they were recorded |
| LegacyEvents.LegacyCkptsInOrder | replay/legacy_schedule.py:68-95 | the checkpoints are the bootstrap's and one for each transition that is no marker, in order, with its own work, strategy and latency |
| LegacyEvents.LegacyRestoresNeeded | replay/legacy_schedule.py:70-71 | a restore never names the checkpoint just taken |
| LegacyEvents.LatenciesSpanTheLog | replay/legacy_schedule.py:84-87 | the latencies of a chronological log add up to the time between its first and last transition |
| LegacyEvents.IndexHoldsLast | replay/legacy_schedule.py:58 | the index holds the last transition recorded under an ID |
| LegacySchedule.LegacyAcceptedIff | replay/legacy_schedule.py:55-96 | a converted log is accepted if and only if its checkpoint IDs, bootstrap included, are present and distinct |
| LegacySchedule.LegacyContinuesAncestors | replay/legacy_schedule.py:68-96 | for every worker, each checkpoint holds its own work done from the state of the ancestor that the compiler's walk finds |
| LegacySchedule.LegacyLightweightReads | replay/legacy_schedule.py:72-92 | a lightweight transition carries no write |
| LegacyReplay.WalkFindsNearest | replay/legacy_schedule.py:59-67 | the walk finds the nearest recorded ancestor that takes a checkpoint, provided that came before |
| LegacyReplay.InOrderRebuilds | replay/legacy_schedule.py:55-96 | for every worker, an accepted schedule of a log in order rebuilds the recorded line of descent of every transition |
| LegacyReplay.RebuildsIffInOrder | replay/legacy_schedule.py:55-96 | an accepted schedule rebuilds all recorded lines if and only if every checkpoint comes after that of its nearest recorded ancestor |
| LegacyReplay.LegacyLightweightFiles | replay/legacy_schedule.py:55-96 | in every accepted schedule of a log in order each checkpoint holds the files of its nearest standard ancestor on its recorded line, which exists |
| LegacyReplay.LegacyWalkedFiles | replay/legacy_schedule.py:55-96 | in order or not, each checkpoint holds the files of the nearest standard one among the ancestors that the walk chose |
| LegacyReplay.LateParentLost | replay/legacy_schedule.py:59-67 | a log whose first transition has its recorded parent after it is converted and accepted, and not rebuilt |
| LegacyReplay.LateParentFiles | replay/legacy_schedule.py:59-67 | in that log the lightweight checkpoint does not hold the files of its standard recorded parent |
| DigestCache.FileDigest | replay/provenance.py:30-38 | chunked hashing digests exactly the file's bytes under its stat fields |
| DigestCache.AnyChangeForcesRehash | replay/provenance.py:60-66 | another path, device, inode, size or timestamp always requires a fresh hash |
| DigestCache.RecentIsRehashed | replay/provenance.py:60-64 | a digest begun within a second of either timestamp, or in the future, is never reused |
| DigestCache.MalformedIsRehashed | replay/provenance.py:65 | a stored digest that is not 64 lower-case hexadecimal digits is never reused |
| DigestCache.TruthfulStep | replay/provenance.py:60-75 | every step keeps each entry truthful or unusable: a change at or after the digest began leaves a ctime the reuse test refuses |
| DigestCache.HitsAreCurrent | replay/provenance.py:41-75 | in every interleaving of changes, clock steps and lookups a hit returns the digest of the file's current bytes |
| DigestCache.Store.CachedDigest | replay/provenance.py:41-75 | an undisturbed lookup answers with the current digest, touches only its own entry, and makes the next lookup of an old enough file a hit |
| WorkQueue.FirstClaimable | ae/repro/cpu_work_queue.py:113-121 | the claimed experiment is the first claimable one in the list |
| WorkQueue.WorkQueue.Claim | ae/repro/cpu_work_queue.py:104-123 | claims the first claimable experiment, or says wait, done or refused, and changes nothing else |
| WorkQueue.WorkQueue.Finish | ae/repro/cpu_work_queue.py:135-142 | only the node that runs an experiment can finish it |
| WorkQueue.ClaimAnswers | ae/repro/cpu_work_queue.py:104-123 | exactly when a claim is refused, given work, told to wait or done |
| WorkQueue.ReportRecords | ae/repro/cpu_work_queue.py:135-142 | an accepted report leaves its experiment succeeded if and only if it said ok, failed if and only if not, and changes nothing else |
| WorkQueue.OutcomesAreReports | ae/repro/cpu_work_queue.py:104-142 | over every run an experiment has succeeded exactly when it had at the start or its node reported ok, and failed exactly when its node reported failure |
| WorkQueue.FailedMeansReported | ae/repro/cpu_work_queue.py:108-142 | the queue stops exactly when some node reported a failure |
| WorkQueue.ServiceNames | ae/repro/cpu_work_queue.py:11-12 | the service experiments are those whose names end in -cube or -e2b |
| WorkQueue.PlayExclusive | ae/repro/cpu_work_queue.py:104-123 | in every reachable state at most one service experiment runs and each node runs at most one |
| WorkQueue.PlayKeepsLeases | ae/repro/cpu_work_queue.py:92-123 | leases always name placed nodes |
| WorkQueue.StartedOnce | ae/repro/cpu_work_queue.py:113-121 | no experiment is given out twice in any run |
| WorkQueue.FinishedOnceByOwner | ae/repro/cpu_work_queue.py:135-142 | no experiment is finished twice, nor by a node it was not given to |
| WorkQueue.LeaseHonoured | ae/repro/cpu_work_queue.py:115-119 | a lease present at the start is honoured for ever |
| WorkQueue.NothingAfterFailure | ae/repro/cpu_work_queue.py:108-109 | after a failure nothing new starts |
| WorkQueue.WaitMeansServiceElsewhere | ae/repro/cpu_work_queue.py:112-123 | wait means that another node runs a service experiment |
| WorkQueue.DoneIsForGood | ae/repro/cpu_work_queue.py:122-133 | a node that is done stays done whatever happens |
| WorkQueue.EveryStepCounts | ae/repro/cpu_work_queue.py:104-142 | each claim that gives out work and each accepted finish lowers a rank by one; everything else changes nothing |
| WorkQueue.EffectsBounded | ae/repro/cpu_work_queue.py:104-142 | any run gives out and finishes work at most twice per experiment in all |
| WorkQueue.SomeoneCanMove | ae/repro/cpu_work_queue.py:104-133 | no deadlock: short of failure or full success some node runs something or gets work |
| WorkQueue.AllDoneMeansAllSucceeded | ae/repro/cpu_work_queue.py:122-133 | without failures, all nodes done means every experiment succeeded |
| Worker.PromptShape | worker/agent_worker.py:354-368 | with a positive limit a prompt is the system prompt, the task, the latest messages without a gap and the observation, and is bounded |
| Worker.PromptBoundedIff | worker/agent_worker.py:354-368 | over the prompts of all reachable workers there is a bound if and only if the turn limit is positive |
| Worker.AgentWorker.HandleInit | worker/agent_worker.py:468-492 | init makes the conversation the system prompt and the task, waits while a request is pending, and keeps the worker valid |
| Worker.AgentWorker.HandleStep | worker/agent_worker.py:493-514 | a step sends the prompt of the conversation before the observation is folded in, adds that one message, and keeps the worker valid |
| Worker.AgentWorker.HandleNotify | worker/agent_worker.py:527-557 | a notify line is ignored unless pending; a usable response adds the reply and then the result of its action, an unusable one adds nothing; the worker stays valid |
| Worker.NextInv | worker/agent_worker.py:408-573 | every move keeps the invariant of the live branch and of every snapshot |
| Worker.BranchesNeverMix | worker/agent_worker.py:493-557 | over every interleaving each assistant message answers a request of its own branch, made from exactly the transcript before it, and none is answered twice |
| Worker.ConversationIsStory | worker/agent_worker.py:468-557 | over every interleaving the conversation of the live branch and of each snapshot is exactly what that branch was told, in order: system prompt and task, observations, replies with their results |
| Worker.ResultFollowsReply | worker/agent_worker.py:541-553 | the message right after an assistant message holds the result of the notify that took that reply on this branch |
| Worker.TakenOnce | worker/agent_worker.py:434-557 | at most one request is pending, each is consumed at most once, and the conversation has 2 + 2 steps + folded observations messages |
| Worker.PublishedInOwnEpoch | npd/npd.py:154-172 | every published response passed the filter in the epoch its request was issued in |
| Worker.StaleConsumableIff | npd/npd.py:154-172 | in every reachable state, the response to an issued request can be consumed after a restore if and only if it is past the filter and some snapshot has the request pending |
| Worker.StaleWasFilteredBefore | npd/npd.py:154-165 | over a run, a response to a request issued before a restore and consumed after it had passed the filter before that restore |
| Worker.StaleResponseRace | npd/npd.py:154-172 | a run in which a response passes the filter, the worker is restored, and the response is still consumed |
| RequestIds.EpochRoundTrip | npd/npd.py:110-121 | the epoch of a tagged ID reads back, for every epoch and suffix |
| RequestIds.NoEpoch | npd/npd.py:110-117 | an ID without the prefix, without a dot or with nothing between them has no epoch |
| RequestIds.DigitsByPlace | npd/npd.py:118-119 | digits count by their place, the most significant first |
| RequestIds.SignedParses | npd/npd.py:118-119 | signs before a number are read |
| RequestIds.SpacesIgnored | npd/npd.py:118-119 | white space around a number is ignored |
| RequestIds.HexIsExempt | npd/npd_client.py:87-92 | a bare hexadecimal ID has no epoch |
| RequestIds.TaggedIdInjective | worker/agent_worker.py:295-296 | epoch and suffix of a tagged ID can be told apart |
| RequestIds.Receive | npd/npd.py:227-232 | one read yields the IDs of the lines it completes and keeps the rest |
| RequestIds.AnyChunking | npd/npd.py:212-232 | the IDs received depend only on the bytes written, not on the reads |
| RequestIds.EveryIdArrives | npd/npd_client.py:97-101 | every ID written arrives once and in order |
| SerialMonitor.Search | replay/run_instance.py:263-264 | the leftmost match in a line, or none |
| SerialMonitor.FeedSound | replay/run_instance.py:261-279 | a report is a real in-line match at its absolute offset |
| SerialMonitor.FeedFirst | replay/run_instance.py:263-279 | a report names the first match in what the monitor held |
| SerialMonitor.FeedComplete | replay/run_instance.py:261-284 | silence means that no match of bounded span ends in the new bytes, despite truncation |
| SerialMonitor.FeedFollows | replay/run_instance.py:279-284 | the kept bytes and offset stay true to the log |
| SerialMonitor.AnyCutting | replay/run_instance.py:252-285 | soundness and completeness for every way of cutting the log into reads |
| SerialMonitor.FatalDelimited | replay/run_instance.py:242-245 | a match of the kernel pattern starts with an opening bracket and ends with a colon or a parenthesis |
| SerialMonitor.LongerMatchHidden | replay/run_instance.py:281-284 | every longer span is that of some kernel panic that reads of one byte hide |
| SerialMonitor.SpanExact | replay/run_instance.py:242-284 | no cutting hides a match of a span if and only if the span is at most one more than the window, for the kernel pattern and over all patterns |
| SerialMonitor.GuestSerialMonitor.Consume | replay/run_instance.py:261-284 | one chunk changes the monitor as specified, or reports |
| SerialMonitor.GuestSerialMonitor.SearchLines | replay/run_instance.py:263-279 | the loop over lines finds the first match and moves the offset past finished lines |
| SerialMonitor.GuestSerialMonitor.Check | replay/run_instance.py:252-285 | a poll keeps the invariant, reports only real matches, makes progress and respects its limit |
| SerialMonitor.GuestSerialMonitor.Drain | replay/run_instance.py:322-328 | the final drain terminates with a real match or having scanned everything up to the end of the log |
| SerialMonitor.GuestSerialMonitor.ValidMore | replay/run_instance.py:252-261 | the monitor's invariant survives any growth of the log, wherever the monitor stands |
| SerialMonitor.GuestSerialMonitor.Watch | replay/run_instance.py:307-328 | polls over a growing log and the final drain together report a real match, or the whole log has none of bounded span |
| Phases.CoveringIsActive | ae/repro/e2b_phases.py:31-37 | clipped intervals say which spans cover an instant of the window |
| Phases.SlabActive | ae/repro/e2b_phases.py:38-41 | between neighbouring boundaries the set of active categories is constant |
| Phases.Sweep | ae/repro/e2b_phases.py:38-44 | the sweep over boundaries computes the pointwise counts |
| Phases.Partition | ae/repro/e2b_phases.py:22-44 | a category has the nanoseconds in which it alone is active, the overlap those with two or more, the rest those with none; it fails exactly on empty or reversed windows |
| Phases.PartitionCloses | ae/repro/e2b_phases.py:39-44 | the totals sum exactly to the window |
| Extents.ExtentCounts | replay/memory_storage.py:41-43 | one extent adds exactly the pages it is the first to reach |
| Extents.AddExtent | replay/memory_storage.py:41-43 | the running total counts no page twice |
| Extents.ReadonlyImageCapacity | replay/memory_storage.py:10-44 | the scan ends on any seek results within the page-rounded size; on truthful seeks it is page size times the pages that hold data; the logical size is answered only if a seek is unsupported |
| RecordedOrder.BuildSearchTable | replay/search_order.py:23-50 | keeps a query exactly when all its recordings agree, comparing only with the last one; refuses repeated files |
| RecordedOrder.BuildOrderTable | replay/history_order.py:56-98 | keeps a signature exactly when all its recordings agree, deleting conflicts; strict mode fails exactly on a dispute |
| RecordedOrder.SignedMember | replay/history_order.py:56-90 | every list of spans is recorded under its own path and spans, and nothing else is |
| RecordedOrder.KeptTablesEqual | replay/history_order.py:84-90 | tables that meet the specification are equal, whatever the traversal order |
| RecordedOrder.LoadTable | replay/history_order.py:102-115 | loading refuses exactly the files that give a signature two orders, and otherwise gives back the one table the file saves, in whatever row order |
| RecordedOrder.SpanAdapter.RestoreSpanOrder | replay/history_order.py:118-131 | the result is the live spans with multiplicity, in recorded order if there is one |
| RecordedOrder.SortIsBuckets | replay/search_order.py:57-58 | a stable sort by priority lays out priority classes in order, each in its original order |
| RecordedOrder.RestoreOnlyPermutes | replay/search_order.py:53-76 | search restoration is the identity, or recorded files first in recorded order and the rest unchanged; always a permutation |
| Statistics.SummaryPasses | ae/repro/gpu_occupation.py:232-237 | every nonempty sample has min <= median <= p95 <= max and min <= mean <= max, with its own extremes; the consumer accepts the summary if and only if every sample is positive |
| Statistics.SummaryMean | ae/repro/common.py:83 | the mean is the sum of the sample over its size |
| Statistics.SummaryQuantiles | ae/repro/common.py:79-84 | the median is midway between the two middle values, and p95 lies between its neighbours, exactly 95 % along an evenly spaced sample |
| Statistics.MedianBelowP95 | ae/repro/gpu_occupation.py:233-237 | the interpolated quantile is never below the median |
| Statistics.Histogram | ae/repro/analysis.py:500-508 | each bin counts its own values; bins, values above the last edge and values below the first account for every value |
| Statistics.EdgeGoesUp | ae/repro/analysis.py:505 | a value on an inner edge counts in the bin above it, one on the last edge in the last bin |
| Statistics.CheckpointHistogram | ae/repro/analysis.py:1088-1089 | clamped counts plus overflow equal the event count, as the consumer checks |
| Statistics.OccupationIsRatio | ae/repro/gpu_occupation.py:175-178 | scaled occupation is (g+t)/(s+g+t) and lies in (0, 1] |
| Statistics.CalculateOccupation | ae/repro/gpu_occupation.py:163-189 | one row for every measured grid point and no other, with generation and training as a share of all three phases, and the staleness |
| Statistics.OccupationPasses | ae/repro/figure08_plots.py:129-170 | the consumer accepts every computed model: each grid point once, as a row or as unavailable |

## Left out

- Sandbox controller, CRIU, overlay file systems and VM lifecycle: checkpoint and restore are abstract snapshot and load steps.
- Hash functions, the matching engine of regular expressions and floating point: an arbitrary hash, an arbitrary predicate on byte strings that rejects the empty one (and, for the exactness of the bound, the kernel pattern itself), and integers or reals.
- Node IDs are taken to be distinct, as the search assigns them; nodes without an ID are modelled.
- GuestEdits: files are texts by path; path resolution, test runs and the patch tool are left open.
- Metadata of events and operations that does not steer a replay: iteration numbers, dump sizes, action step indices, expected test failures and repair evidence.
- The LLM round-trip record of the tree converter, which is a separate summary of timestamps.
- DigestCache.HitsAreCurrent: assumes a clock that never runs backwards and changes that stamp a ctime less than one second old; symbolic links behind a path are not modelled.
- Worker: liveness when the host pipelines commands, the warm-template fork, command framing on the host pipe, and the text of replies. A prompt's observation is its text after truncation.
- The polling client of the proxy (`wait` in npd/npd_client.py) and HTTP retries: library and clock behaviour.
- RequestIds.EpochRoundTrip: integers are parsed as ASCII text without Python's limit on the number of digits.
- SerialMonitor: the evidence record of a report beyond its byte offset.
- Phases.Partition: totals are in nanoseconds; the division by 1e6 and the comparison of windows with API timers are left out.
- WorkQueue: the validation of recovered groups against files, and the result rows that reports carry; a recovered queue is one in which nothing runs or has failed.
- RecordedOrder.BuildSearchTable: recordings are a list in traversal order; walking the trace and recognising its actions are left out, and the result does not depend on that order.
- RecordedOrder.BuildOrderTable: the checks of a message's JSON serialization are left out, likewise.
- Statistics.OccupationPasses: field types, provenance and the tolerance of the percentage check are left out; the percentage is exact.
- Plots, captions, reuse and cohort validators, option tables: user interface or conjunctions of checks settled by reading them.
