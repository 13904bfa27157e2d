# buoy: verified model

buoy is a backup daemon for Docker. This project models the parts of it that
are algorithms and protocols, and proves what they guarantee:

- the order in which the services of a Compose stack are started and stopped,
  for any dependency graph, cyclic ones included (`DependencyGraph`,
  `ServiceOrder`, `StopSet`);
- the stop / back up / start cycle of a stack, for every pattern of failures
  (`StackCycle`, `StackRunner`, `StackTheorems`);
- the scheduler's goroutines (per-project queues, the shared semaphore, and
  maintenance jobs that take the whole semaphore token by token) as a
  transition system over all interleavings (`SchedulerProtocol`,
  `SchedulerInvariant`, `SchedulerTheorems`, `SchedulerLiveness`,
  `SchedulerExecution`);
- the schedule's three maps as views of one list of registrations, the
  repository store, and resyncing both with a listing (`ContainerRegistry`,
  `RepoStore`, `Resync`, `ResyncedStore`, `ProjectTrigger`);
- collapsing mount sources (`Paths`, `CollapseMounts`), splitting volume specs
  (`VolumeSpec`) and choosing a byte unit (`FormatBytes`).

`Strings`, `Selections` and `Containers` hold what these share. `dafny verify dfyconfig.toml`
checks the whole project.

## How it is laid out

Code that changes state step by step is a method or a class with the source's
fields and loops. Each such method is proved equal to a function of its inputs
or of the old state (`AfterVisit`, `Plan.Trace`, `Registered`, `Synced`,
`Parts`, ...); what the source promises is then proved about that function.
Where Go iterates a map, the method picks an arbitrary key, so the contract
holds for every iteration order.

Docker, restic and cron appear as freely chosen functions: whether a stop, a
start or a backup of a container succeeds, which schedules cron accepts, which
repositories a container resolves to. A theorem that quantifies over them holds
for every behaviour of the outside world.

The scheduler is a transition system because its claims are about
interleavings. A job's program counter stands before its next access to shared
state; a section under a queue's lock is one step. Arrivals are unrestricted,
except that cron skips a maintenance entry that is still running.

## What turned out false, and exactly when it holds

- Two maintenance entries with different schedules can each hold part of the
  semaphore and wait forever. Work can always go on exactly if the capacity is
  one or there is at most one maintenance entry
  (`SchedulerTheorems.DeadlockFreeExactlyWhen`); a stuck scheduler never
  executes a backup again (`SchedulerTheorems.StuckForever`).
- "Dependencies first" holds for the whole graph exactly if it is acyclic
  (`ServiceOrder.TopologicalExactlyWhenAcyclic`). On cyclic ones each edge that
  is not on a cycle is respected, but an indirect dependency need not be
  (`ServiceOrder.IndirectOrderFailsOnCycles`). Everything below a given service
  comes before it, however indirect, exactly if that service is on no cycle
  itself (`ServiceOrder.IndirectOrderExactlyWhen`).
- A container that had already exited is stopped "successfully" and then
  started. The running containers are restored exactly if every container of
  the stop set was running (`StackTheorems.RunningIsRestoredExactlyWhen`).
- A member that asks to be stopped but has no service is backed up without being
  stopped, as labels give no dependencies to containers without a service
  (internal/backup/deps.go:48-50; `StackTheorems.BackedUpWhileStoppedExactlyWhen`).
- `backupErrors` is keyed by service, and members without a service are not
  deduplicated. It counts the failed members in every outcome exactly if at most
  one member has no service; in the same cases retention runs for exactly the
  members that did not fail (`StackTheorems.ErrorsCountFailuresExactlyWhen`,
  `StackTheorems.RetentionSparesFailuresExactlyWhen`).
- Repository entries carry the right orphan flag exactly as long as every sync
  is clean (`RepoStore.RunKeepsGoodExactlyWhen`). `Resync` adds listed
  containers before it drops missing ones, so a re-created container whose URL
  was held by its predecessor ends up with its own entry marked orphaned
  (`ResyncedStore.RecreatedContainerIsOrphaned`). A resync leaves every flag
  right exactly if no two containers that it syncs share a repository, and a
  repository held before is claimed by one of them if and only if its holder is
  one of them (`ResyncedStore.ResyncKeepsGoodExactlyWhen`).
- A second resync with the same listing syncs again every container that cron
  refused. It can hand a repository from one container to another
  (`ResyncedStore.RefusedContainerTakesOver`), and leaves the store as it is
  exactly if each repository that it claims was not taken over from a dropped
  container and was claimed last by a container that is synced again
  (`ResyncedStore.SecondResyncLeavesStoreExactlyWhen`); after a resync that left
  every flag right, it always does (`ResyncedStore.CleanResyncIsIdempotent`).
- Two projects share a group key if one's name holds a colon, and a container
  whose schedule cron rejects can then join a live group
  (`Resync.ColonSlipsIn`). A resync schedules what it should exactly if none
  does (`Resync.ResyncSchedulesExactlyWhen`), which holds in every state
  reached with colon-free names (`Resync.ColonFreeResync`).
- A schedule is read back from a group key exactly if no "::" starts after the
  project's end (`ContainerRegistry.ScheduleIsRecoveredExactlyWhen`).
- A `${...}` nested in another one is not protected from splitting, because the
  inner opening resets the depth (`VolumeSpec.NestedReferenceIsNotClean`). A
  text that a colon follows survives as a part exactly if it is clean; one that
  ends the spec, exactly if it has no bare colon, so that it may leave a
  reference open (`VolumeSpec.SplitInvertsJoinExactlyWhen`).
- Collapsed mounts are not nested, and each input is under exactly one of them,
  exactly if no input lies under another one that is "" or "/"
  (`CollapseMounts.ResultsAreNotNestedExactlyWhen`,
  `CollapseMounts.EachInputIsUnderOneExactlyWhen`).

## Model

| member | source | states |
|---|---|---|
| ServiceOrder.DepthFirstSort.Visit | internal/backup/deps.go:100-117 | the recursive closure over its captured marks takes them exactly to `AfterVisit`, and ends because the services neither visited nor on the stack become fewer |
| ServiceOrder.VisitSound | internal/backup/deps.go:99-117 | every visit keeps: no duplicates, each edge of a finished service placed or leading back, everything below a finished service that is on no cycle placed, warnings only for services on a cycle, and the visited service handled |
| ServiceOrder.FinishSound | internal/backup/deps.go:114-116 | leaving a service whose dependencies are all handled keeps the same invariant |
| ServiceOrder.BelowIsVisited | internal/backup/deps.go:99-117 | when a service on no cycle is left, every walk from it leads to services that are placed already |
| ServiceOrder.TopologicalSort | internal/backup/deps.go:93-126 | the order and the warnings are functions of the graph alone, whatever order the map is iterated in |
| ServiceOrder.AllServices | internal/backup/deps.go:128-146 | every service with an entry or named as a dependency is listed once, in any order |
| ServiceOrder.SortOfAnyEnumeration | internal/backup/deps.go:119-119 | sorting erases the order in which the services were collected |
| ServiceOrder.Topological | internal/backup/deps.go:74-82 | dropping the conditions, the order is that of the graph the dependency map stands for |
| ServiceOrder.GraphOfMeans | internal/backup/deps.go:74-81 | that graph lists the names given for a service, in their order, and has no entry for a service without any |
| ServiceOrder.ReverseTopological | internal/backup/deps.go:85-91 | the stop order is the exact reverse of the separately computed start order |
| ServiceOrder.ReverseInPlace | internal/backup/deps.go:87-89 | the swapping loop reverses the slice |
| ServiceOrder.StartOrderIsEnumeration | internal/backup/deps.go:93-126 | each service that has an entry or is named as a dependency appears exactly once, cycles or not, and no other |
| ServiceOrder.StartOrderRespectsEdges | internal/backup/deps.go:93-126 | for each edge, the dependency comes first unless it leads back to its dependent |
| ServiceOrder.StopOrderRespectsEdges | internal/backup/deps.go:26-30 | for each such edge the dependent is stopped first |
| ServiceOrder.WarnsExactlyOnCycles | internal/backup/deps.go:104-108 | the cycle warning is issued if and only if the graph has a cycle, self-dependencies included, and only for services on one |
| ServiceOrder.TopologicalExactlyWhenAcyclic | internal/backup/deps.go:73-82 | dependencies come first exactly for acyclic graphs, and then indirect ones too |
| ServiceOrder.IndirectOrderExactlyWhen | internal/backup/deps.go:93-126 | all direct and indirect dependencies of a service come before it, if and only if it is on no cycle itself |
| ServiceOrder.IndirectOrderFailsOnCycles | internal/backup/deps.go:93-126 | with a on b and c, and b on a, b is started before c although it reaches c and c does not reach it |
| DependencyGraph.DependenciesFirstIsTransitive | internal/backup/deps.go:73-82 | any list that places direct dependencies first places indirect ones first, and can exist only for an acyclic graph |
| StopSet.BuildDependents | internal/backup/deps.go:180-189 | the dependents map has exactly the graph's edges, turned around |
| StopSet.Collector.AddDependents | internal/backup/deps.go:191-198 | the service and everything depending on what was newly added is in the set, and nothing that some closed set leaves out; also when the service was reached before |
| StopSet.StopServices | internal/backup/deps.go:160-177 | the result is the least set that holds the stop-before services of the batch and every service depending on a member: a service is in it exactly if it is, or depends on, the named service of a container that asks to be stopped |
| StopSet.StopSetIsReachability | internal/backup/deps.go:158-177 | that set is the seeds and the services that reach one, neither more nor less |
| StopSet.StopSetMeans | internal/backup/deps.go:164-172 | that set in terms of the batch: containers that do not ask, and those without a service, add nothing |
| StackCycle.ServiceContainers | internal/backup/deps.go:149-156 | grouping keeps the listing order within each service |
| StackCycle.InServiceInOrder | internal/backup/deps.go:149-156 | a group is the containers of its service, in listing order |
| StackCycle.SweepInListingOrder | internal/backup/stack.go:179-182 | the nested loops meet the containers of one service in listing order |
| StackCycle.DeduplicateByService | internal/backup/stack.go:451-467 | the loop computes `Deduplicated` |
| StackCycle.DeduplicatedKeepsFirsts | internal/backup/stack.go:451-467 | what is kept is the first container of each service and every container without one |
| StackCycle.DeduplicatedServices | internal/backup/stack.go:451-467 | no service of the batch is lost |
| StackCycle.MembersAreListed | internal/backup/stack.go:46-55 | what is backed up is listed in the stack, and one per service |
| StackCycle.InspectedAreListed | internal/backup/stack.go:46-54 | every batch container that still exists is kept, and no other |
| StackCycle.MembersAreFirstInBatch | internal/backup/stack.go:46-55 | from batch and listing alone: members stand in batch order, and are each listed container without a service as often as the batch names it, and of each service the first of the batch that is listed with it |
| StackCycle.SweepDistinct | internal/backup/stack.go:179-182 | the two nested loops meet each container once |
| StackRunner.Runner.StopContainer | internal/backup/lifecycle.go:18-50 | a stop succeeds or fails, with the container left running or not |
| StackRunner.Runner.StopStackServices | internal/backup/stack.go:151-202 | the stop loop makes its calls in stop order, its three sets and the running and ignored containers being given for every pattern of failures; the batch's ignored set is what was stopped |
| StackRunner.AfterStopsOutcome | internal/backup/stack.go:190-198 | stopping container by container leaves exactly the successes stopped and the failures recorded, and changes what runs accordingly |
| StackRunner.AfterStopsIgnored | internal/backup/stack.go:185-196 | ignoring before each stop and releasing after each failure leaves exactly the stopped ones ignored |
| StackRunner.Runner.BackupStackServices | internal/backup/stack.go:204-244 | stop-failed containers are skipped, and errors are recorded per service, issues per member; each member's backup has an outcome of its own |
| StackCycle.ErrorMapValue | internal/backup/stack.go:217-233 | a service is recorded with the error of its last failed member: the failed stop if that was skipped, its backup error otherwise |
| StackCycle.FailedInOrder | internal/backup/stack.go:214-242 | the failed members in batch order |
| StackCycle.IssuesAt | internal/backup/stack.go:219-233 | there is one issue for each failed member, with its service and what failed |
| StackRunner.Runner.StartStackServices | internal/backup/stack.go:246-284 | the start loop makes its calls in start order for what was stopped |
| StackRunner.Runner.RunRetention | internal/backup/stack.go:286-304 | retention runs for members whose service has no error |
| StackRunner.Runner.ReleaseBatch | internal/backup/stack.go:306-310 | all of the batch's ids are released |
| StackRunner.Runner.RunStackBatch | internal/backup/stack.go:21-89 | a cycle's trace, running containers and ignored ids are those of a valid plan, whose members are the first of each service in the batch; no id of a target stays ignored |
| StackTheorems.SweepOrder | internal/backup/stack.go:179-182 | containers of an earlier service are met earlier |
| StackTheorems.PhaseAt | internal/backup/stack.go:68-78 | the trace is the stop calls, then the backups, then the starts, then retention |
| StackTheorems.DependentsAreStoppedFirst | internal/backup/stack.go:151-202 | at every stop call, each container depending on the stopped one has had its stop call: directly unless the two services form a cycle, indirectly unless the dependent is on a cycle |
| StackTheorems.DependenciesAreStartedFirst | internal/backup/stack.go:246-284 | at every start call, each stopped container it depends on has had its start call: directly unless the two services form a cycle, indirectly unless the started one is on a cycle |
| StackTheorems.StopOutcomesPartition | internal/backup/stack.go:158-199 | stopped and stop-failed containers are disjoint and together exactly those of the stop set's services |
| StackTheorems.StopCallExactlyWhen | internal/backup/stack.go:151-202 | a container gets a stop call, if and only if a member asks to be stopped whose service is its own or below it |
| StackTheorems.ReplicasStopInListingOrder | internal/backup/stack.go:179-182 | the containers of one service are stopped in listing order |
| StackTheorems.ReplicasStartInListingOrder | internal/backup/stack.go:271-282 | those that were stopped are started in listing order |
| StackTheorems.StopsAndStartsBalance | internal/backup/stack.go:151-284 | every container that was stopped gets exactly one start call, every stop-set container one stop call, and no other container gets either |
| StackTheorems.RunningIsRestoredExactlyWhen | internal/backup/stack.go:151-284 | in all outcomes without lasting damage what runs is restored, if and only if all stop-set containers ran before |
| StackTheorems.RunningInTheEnd | internal/backup/stack.go:151-284 | for every outcome, which containers run in the end: untouched ones as before, the others by how their stop and start ended |
| StackTheorems.BackedUpWhileStoppedExactlyWhen | internal/backup/stack.go:204-244 | a member is backed up after a successful stop of its own and before any start, if and only if its service is in the stop set; one that asks to be stopped is, exactly if it has a service |
| StackTheorems.BackedUpAtMostOnce | internal/backup/stack.go:204-244 | for either result, the backup calls are one for each member whose stop did not fail and none besides; a named service has at most one |
| StackTheorems.ErrorsCountFailuresExactlyWhen | internal/backup/stack.go:80-88 | the number of errors is the number of failed members in every outcome, if and only if at most one member has no service |
| StackTheorems.RetentionSparesFailuresExactlyWhen | internal/backup/stack.go:286-304 | retention runs for exactly the members that did not fail in every outcome, if and only if at most one member has no service |
| SchedulerProtocol.StackQueue.Offer | internal/scheduler/scheduler.go:312-320 | the first locked section appends and claims the queue, or reports that it is taken |
| SchedulerProtocol.StackQueue.Take | internal/scheduler/scheduler.go:331-339 | the locked section of the drain loop takes everything, or gives the queue up |
| SchedulerInvariant.AdvanceCounters | internal/scheduler/scheduler.go:213-244 | every step keeps the tokens taken and the `active` counter equal to the sums over the jobs' program counters, within the capacity |
| SchedulerInvariant.AdvanceWorkers | internal/scheduler/scheduler.go:309-361 | every step keeps a queue active exactly while one job is its worker |
| SchedulerInvariant.AdvanceQueues | internal/scheduler/scheduler.go:309-361 | every step keeps finished, held and pending containers equal to what was enqueued, in order |
| SchedulerInvariant.ReachableInv | internal/scheduler/scheduler.go:206-430 | the whole invariant holds in every interleaving of every arrival |
| SchedulerTheorems.BackupsAreBounded | internal/scheduler/scheduler.go:57-60 | at most max(1, Concurrency) jobs execute, all tokens are accounted for, and whatever executes shows in `active` |
| SchedulerTheorems.MaintenanceIsAlone | internal/scheduler/scheduler.go:206-244 | while a maintenance function executes no other job holds a token or executes |
| SchedulerTheorems.QueuesConserve | internal/scheduler/scheduler.go:309-361 | a project has at most one worker; an inactive queue is empty and all is finished; otherwise nothing is lost, duplicated or reordered |
| SchedulerTheorems.FalseMeansDone | internal/scheduler/scheduler.go:333-337 | a caller that got false has had its own batch run to the end |
| SchedulerTheorems.TrueMeansPending | internal/scheduler/scheduler.go:313-318 | when a caller gets true its batch is the end of pending and another job is the worker |
| SchedulerTheorems.QueuedIsNotLost | internal/scheduler/scheduler.go:313-318 | from then on the batch keeps its place, finished or ahead of a worker |
| SchedulerTheorems.RunExtendsHistory | internal/scheduler/scheduler.go:309-361 | no run takes back or reorders what was enqueued or finished |
| SchedulerTheorems.NoDeadlock | internal/scheduler/scheduler.go:213-244 | with one maintenance entry or one token, unfinished work has an enabled step |
| SchedulerTheorems.StuckIsReachable | internal/scheduler/scheduler.go:213-227 | two maintenance jobs can share out a semaphore of any capacity from two up |
| SchedulerTheorems.StuckForever | internal/scheduler/scheduler.go:213-227 | then they wait forever and nothing executes, whatever else arrives |
| SchedulerTheorems.DeadlockFreeExactlyWhen | internal/scheduler/scheduler.go:206-244 | every reachable state with unfinished work has an enabled step, if and only if the capacity is one or there is at most one maintenance entry |
| SchedulerLiveness.StepUsesPotential | internal/scheduler/scheduler.go:213-430 | every step of a job uses up potential, also when it hands its batch to another worker |
| SchedulerLiveness.WorkGetsDone | internal/scheduler/scheduler.go:213-430 | without new arrivals and without the deadlock, the number of steps is bounded and every maximal run ends with all jobs done, all tokens back and every queue finished |
| SchedulerExecution.ExecutesOnce | internal/scheduler/scheduler.go:213-430 | over any run, a single backup or maintenance job executes once on its way to its end, and stays what it was |
| SchedulerExecution.NoJobEndsUnexecuted | internal/scheduler/scheduler.go:387-402 | from the start of the scheduler, a single backup or maintenance job that is past its execution was executing at some earlier state, and has executed exactly once |
| SchedulerExecution.FinishedWasExecuted | internal/scheduler/scheduler.go:330-360 | what a queue has finished is exactly what its workers executed, in that order |
| SchedulerExecution.GroupStartsAll | internal/scheduler/scheduler.go:285-304 | the jobs that a group has started back up its first containers, in order and one each; it is finished exactly when it has started one for every container |
| SchedulerExecution.GroupIsBackedUp | internal/scheduler/scheduler.go:285-304 | when these jobs have ended too, each container of the group was executed exactly once by them |
| SchedulerExecution.NewJobsExecute | internal/scheduler/scheduler.go:291-303 | only groups start jobs, and what they start executes at once |
| ContainerRegistry.Registry.Register | internal/scheduler/registry.go:33-56 | all maps and cron stay in agreement and the registrations change as `Registered` says, also when a container changes groups and cron rejects the new one; the only new cron entry runs the given function on the given schedule |
| ContainerRegistry.Registry.UnregisterLocked | internal/scheduler/registry.go:70-93 | the container leaves all maps, and an emptied group leaves cron |
| ContainerRegistry.ConsistentLeave | internal/scheduler/registry.go:70-93 | cutting a container out of its slice keeps index, groups, cron ids and live cron entries in agreement, whether or not the group is emptied |
| ContainerRegistry.ConsistentNewGroup | internal/scheduler/registry.go:44-54 | so does opening a group with a fresh cron entry |
| ContainerRegistry.InExactlyOneGroup | internal/scheduler/registry.go:52-53 | a scheduled id is in its own group, once, and in no other |
| ContainerRegistry.RegisteringMovesToEnd | internal/scheduler/registry.go:37-53 | who registers anew stands at the end of the new group and is cut out of the old one, and nobody else moves |
| ContainerRegistry.Registry.GetGroup | internal/scheduler/registry.go:95-101 | the copy is the registrations of that key, oldest first |
| ContainerRegistry.Registry.Count | internal/scheduler/registry.go:64-68 | the count is the number of registrations |
| ContainerRegistry.Registry.Has | internal/scheduler/registry.go:103-108 | membership in the index is being registered |
| ContainerRegistry.Registry.ListAll | internal/scheduler/registry.go:128-142 | every registration is listed once, with its schedule read from the key |
| ContainerRegistry.Registry.ListedScheduleExactlyWhen | internal/scheduler/registry.go:128-153 | a container is listed with its own schedule, if and only if no separator starts after its project |
| ContainerRegistry.Registry.Find | internal/scheduler/registry.go:155-167 | some registered container of the name, if there is one |
| ContainerRegistry.Registry.FindByProject | internal/scheduler/registry.go:169-183 | the registered containers of the project, each once |
| ContainerRegistry.ScheduleIsRecoveredExactlyWhen | internal/scheduler/registry.go:144-153 | reading the schedule back from a key inverts making the key, exactly if no separator starts after the project's end |
| ContainerRegistry.GroupKeyIsInjective | internal/scheduler/registry.go:144-146 | for projects without a colon, a key determines project and schedule |
| RepoStore.Registry.SyncContainer | internal/registry/registry.go:56-83 | one update upserts all resolved repositories and records the container's URLs; a failed resolution writes nothing |
| RepoStore.Registry.UpsertRepoEntry | internal/registry/registry.go:85-127 | an entry that is up to date is left alone, another one is claimed, a missing one created |
| RepoStore.Registry.MarkOrphaned | internal/registry/registry.go:164-206 | all entries of the container's URLs are marked and its list deleted |
| RepoStore.Registry.MarkBackupComplete | internal/registry/registry.go:129-135 | a known entry records the time and the result given; no other field, entry or URL list changes |
| RepoStore.Registry.MarkCheckComplete | internal/registry/registry.go:137-162 | likewise for checks |
| RepoStore.ResultIsRecorded | internal/registry/registry.go:129-162 | both, on values |
| RepoStore.NewEntryIsBlank | internal/registry/registry.go:108-120 | an entry that a sync creates has its URL, the time of that sync, and no backup or check history |
| RepoStore.EntriesAreUnderOwnUrl | internal/registry/registry.go:85-127 | in every run, each entry is stored under its own URL |
| RepoStore.ListedUrlsHaveEntries | internal/registry/registry.go:56-206 | in every run, each listed URL has an entry |
| RepoStore.SyncedEntriesDescribe | internal/registry/registry.go:85-127 | a sync leaves each of its entries live, with the container's id, name, project and service |
| RepoStore.Registry.GetContainerRepos | internal/registry/registry.go:318-349 | the stored entries in listed order, a bare one where none is stored; in every reachable store all are stored, each with the listed URL; under right flags all are live and the container's own |
| RepoStore.UpsertedAllFacts | internal/registry/registry.go:85-127 | all given URLs end up owned and live, no other entry changes, and no history is rewritten |
| RepoStore.SyncKeepsGoodExactlyWhen | internal/registry/registry.go:56-127 | a sync keeps "live if and only if listed, by the recorded owner" exactly if nobody else lists its URLs and none of its own is given up |
| RepoStore.OrphanKeepsGood | internal/registry/registry.go:164-206 | orphaning always keeps it |
| RepoStore.RunKeepsGoodExactlyWhen | internal/registry/registry.go:56-206 | over a whole run it holds after every prefix, if and only if every sync in the run is clean |
| RepoStore.GoodMeans | internal/registry/registry.go:85-127 | then an entry is live exactly if some container lists its URL, every listed URL has an entry, and the lister is its owner |
| RepoStore.FixedResolutionIsClean | internal/registry/registry.go:56-83 | if a container always resolves to the same repositories, a sync is clean exactly if no other container lists one of them |
| RepoStore.LateOrphanHitsNewHolder | internal/registry/registry.go:180-198 | orphaning the previous holder after the new one synced marks the new holder's entry orphaned |
| RepoStore.HistoryIsKept | internal/registry/registry.go:85-206 | entries are never deleted, and syncing and orphaning keep creation time and backup and check history |
| Resync.Scheduler.AddContainer | internal/scheduler/scheduler.go:105-126 | disabled containers and those without a schedule change nothing; others are synced if they resolve, and registered if cron accepts their schedule |
| Resync.Scheduler.RemoveContainer | internal/scheduler/scheduler.go:128-136 | a scheduled container leaves and is marked orphaned; for others nothing happens |
| Resync.Scheduler.Resync | internal/scheduler/scheduler.go:246-277 | the registrations become `Resynced`; the store sees exactly the syncs of the containers that were not scheduled at their turn, then one orphaning for each id that was scheduled before and is not listed |
| Resync.ResyncedIds | internal/scheduler/scheduler.go:246-277 | afterwards the scheduled ids are the listed ones that were scheduled before and the new ones that cron accepts or whose group is live at their turn |
| Resync.ResyncSchedulesExactlyWhen | internal/scheduler/scheduler.go:246-277 | these are the previously scheduled and the schedulable ones among the listed, if and only if no container that cron rejects fits a live group |
| Resync.ColonSlipsIn | internal/scheduler/registry.go:144-146 | a colon in a project name lets such a container in |
| Resync.ColonFreeResync | internal/scheduler/scheduler.go:246-277 | in every state of a scheduler that has seen colon-free project names only, a resync schedules exactly what it should, and a second one with the same listing keeps the schedule |
| Resync.ResyncChangesNothingExactlyWhen | internal/scheduler/scheduler.go:246-277 | a resync keeps the schedule if and only if all scheduled ids are listed and no other listed container is admitted |
| Resync.SecondResyncExactlyWhen | internal/scheduler/scheduler.go:246-277 | a second resync with the same listing keeps the schedule, if and only if no eligible container that the first left out has a live group now |
| Resync.AddedKeepsWellScheduled | internal/scheduler/scheduler.go:105-126 | adding keeps every registration in the group of its own key, which cron accepted for some project seen so far, also across a change of group; an eligible container ends up in its own group or in none |
| Resync.ScheduledAreEnabled | internal/scheduler/scheduler.go:105-114 | in every state, what is scheduled is enabled and has a schedule |
| Resync.EntryOfRegistration | internal/scheduler/scheduler.go:120-125 | every registration is run by exactly one live cron entry, whose project and schedule make its key; with colon-free names these are the container's own |
| Resync.EntryRunsOneProject | internal/scheduler/scheduler.go:279-307 | with colon-free names, all containers that an entry runs are of its project and its schedule |
| Resync.EntryHasContainers | internal/scheduler/registry.go:84-91 | no entry is left without containers |
| ResyncedStore.RunOfSyncs | internal/scheduler/scheduler.go:261-269 | the first loop syncs exactly the listed containers that were not scheduled before, are eligible and resolve, in listing order |
| ResyncedStore.EntryAfterSyncs | internal/registry/registry.go:56-127 | after it, the entry of a URL is live and names the last container that claims the URL, keeps its history, and is untouched if none does |
| ResyncedStore.ResyncKeepsGoodExactlyWhen | internal/scheduler/scheduler.go:246-277 | a resync leaves every orphan flag right, if and only if no two synced containers share a repository and the held repositories that are claimed are those of synced containers |
| ResyncedStore.DroppedHolderOrphansClaim | internal/scheduler/scheduler.go:261-276 | a repository of a dropped container that a new one claims always ends up orphaned, although the new one lists it |
| ResyncedStore.RecreatedContainerIsOrphaned | internal/scheduler/scheduler.go:261-276 | this happens from an empty scheduler: add a container, re-create it under a new id, resync |
| ResyncedStore.SecondResyncLeavesStoreExactlyWhen | internal/scheduler/scheduler.go:246-277 | a second resync with the same listing leaves the store as it is, if and only if every repository it claims was not held by a dropped container and was claimed last by a container that is synced again |
| ResyncedStore.RefusedContainerTakesOver | internal/scheduler/scheduler.go:114-118 | the second resync can hand a repository to a container that cron refused, although the schedule does not change |
| ResyncedStore.CleanResyncIsIdempotent | internal/scheduler/scheduler.go:246-277 | after a resync that left every flag right, a second one leaves the store as it is |
| ProjectTrigger.FilterInPlace | internal/scheduler/scheduler.go:416-421 | filtering behind the read position keeps exactly the included containers in order |
| ProjectTrigger.RunScheduleGroup | internal/scheduler/scheduler.go:279-307 | a tick hands the whole group, oldest first, to the queue of its project, or to a group job if it has none; an empty group starts nothing |
| ProjectTrigger.TriggerBackup | internal/scheduler/scheduler.go:374-402 | a scheduled container of the name goes to the queue of its project, or is backed up alone; without one there is an error |
| ProjectTrigger.TriggerProjectBackup | internal/scheduler/scheduler.go:405-430 | the batch is every scheduled container of the project in the named services, once; otherwise the right error |
| Paths.UnderIsPrefix | cmd/buoyctl/discover.go:260-262 | the string test is prefix order on components |
| Paths.LongestCommonPathPrefix | cmd/buoyctl/discover.go:246-257 | the loop computes the longest common prefix of the components |
| CollapseMounts.GroupCommonIsGreatest | cmd/buoyctl/discover.go:195-199 | a group's common path is above all members and below every other common ancestor |
| CollapseMounts.TwoMembersSuffice | cmd/buoyctl/discover.go:210-213 | the longest common path of a group is already that of two of its members |
| CollapseMounts.BestIsGroupCommon | cmd/buoyctl/discover.go:208-226 | the greedy choice is the longest common path of a whole group, covers exactly that group, and at least two paths |
| CollapseMounts.PickBest | cmd/buoyctl/discover.go:208-226 | the loops over pairs find the best candidate by cover, then length |
| CollapseMounts.Collapse | cmd/buoyctl/discover.go:200-242 | for every input, the result is the sorted list of each group's longest common path, with "" and "/" kept as given |
| CollapseMounts.OrderDoesNotMatter | cmd/buoyctl/discover.go:200-242 | permuting the input does not change the result |
| CollapseMounts.OnlyTwoAreKeyless | cmd/buoyctl/discover.go:211-213 | the inputs that no ancestor in use can replace, and that belong to no group, are exactly "" and "/" |
| CollapseMounts.EachInputIsUnderOneExactlyWhen | cmd/buoyctl/discover.go:195-199 | each input is under some result, and under exactly one if and only if no input lies under another that is "" or "/" |
| CollapseMounts.ResultsAreNotNestedExactlyWhen | cmd/buoyctl/discover.go:195-199 | no result lies under another, in exactly the same cases |
| VolumeSpec.SplitVolumeSpec | internal/compose/parser.go:310-348 | the scanning loop computes `Parts` |
| VolumeSpec.SplitIsLossless | internal/compose/parser.go:310-348 | joining the one to three parts with colons gives any spec back |
| VolumeSpec.PartExactlyWhen | internal/compose/parser.go:310-348 | a text before a colon comes out as the next part exactly if it is clean |
| VolumeSpec.EndPartExactlyWhen | internal/compose/parser.go:310-348 | a text at the end comes out whole exactly if it has no bare colon |
| VolumeSpec.SplitInvertsJoinExactlyWhen | internal/compose/parser.go:310-348 | splitting inverts joining three texts if and only if the first two are clean, two if and only if the first is clean and the second has no bare colon, one if and only if it has none |
| VolumeSpec.PiecesAreClean | internal/compose/parser.go:318-338 | plain characters and closed, non-nested variable references make a clean text |
| VolumeSpec.ColonBetweenPiecesBreaks | internal/compose/parser.go:340-344 | a colon outside closed references always splits |
| VolumeSpec.NestedReferenceIsNotClean | internal/compose/parser.go:318-325 | a colon after a nested reference splits the outer one |
| VolumeSpec.ParseShortSyntax | internal/compose/parser.go:207-224 | source, target and mode of any spec made of such parts are read back, and there is no mount exactly if there is no bare colon |
| FormatBytes.FormatBytes | internal/restic/types.go:63-74 | the loop neither overflows 64 bits nor leaves the units, the quotient is at least one and below 1024, and each range of counts has its own letter |
| Strings.LeqExactlyWhen | cmd/buoyctl/discover.go:240-240 | the order of the results: the first differing character decides, and a prefix comes first |
| FormatBytes.IteratedDivision | internal/restic/types.go:69-72 | dividing by 1024 step by step is dividing by the power |
| FormatBytes.ExponentIsUnique | internal/restic/types.go:63-74 | one unit fits |

## Left out

- Health waits, timeouts, contexts and event streams: a failed dependency wait is only logged and the start goes on, so order is claimed and health is not.
- Hooks, notifications, telemetry, HTTP handlers, command line, configuration and file walking.
- Reading labels: dependency maps, stop-before, enabled and schedule are given as parsed values; that an unlabelled container contributes no dependency is the caller's side.
- bbolt and JSON: buckets are maps and an update is one atomic step that does not fail.
- Resolving repository URLs: given as a function of the container that may fail.
- Cron expressions and timing: a predicate on schedules, and fresh ids.
- The wait group and Stop: every job adds to and leaves it next to the `active` counter, so it would repeat that theorem.
- Starting two queue steps apart: creating a queue and locking it are separate steps, but the lock itself is folded into the section it guards.
- ListScheduled's rendering: a single lookup.
- Resync.ResyncedIds: identifiers in a listing are distinct, as Docker guarantees; likewise everywhere in ResyncedStore.
- ResyncedStore.SecondResyncLeavesStoreExactlyWhen: the listing and the resolution stay the same, and nothing else touches the store between the two resyncs.
- StackTheorems.DependentsAreStoppedFirst: identifiers in a listing are distinct, as Docker guarantees.
- StackRunner.Runner.StopContainer: the stop call, the wait and the restart after a failed wait are one step that succeeds or fails and leaves the container running or not.
- StackRunner.Runner.StartStackServices: the wait for dependencies before each service is left out, as it never prevents a start.
- StackRunner.Runner.RunRetention: post hooks, and the issues that retention itself adds, are left out.
- StackRunner.Runner.RunStackBatch: pre hooks, the sync of the members' repositories and the final notification are not in the trace.
- RepoStore.FixedResolutionIsClean: resolution is any function of the container's id.
- VolumeSpec.ParseShortSyntax: what a source stands for, and its resolution against the project directory, are left out.
- FormatBytes.FormatBytes: the printed decimal itself is floating point and is not modelled; the divisor and the unit are.
