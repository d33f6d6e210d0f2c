# Verified model of the job orchestration core

This project models, in Dafny, the parts of the task orchestration system whose correctness is hard to see by
reading: the Redis lock and the leader election built on it, the dependency resolver and the counters it drives, the
priority heap and the claim query, failure handling and retries, the autoscaler, cron triggering and worker selection.
It proves what holds of them over every input, every run and every interleaving. `dafny verify dfyconfig.toml` checks
everything.

| file | component |
|---|---|
| `Domain.dfy` | identifiers, job statuses, dependencies |
| `Walks.dfy` | the dependency graph; walks, reachability and cycles, independent of any search |
| `GraphSearch.dfy` | cycle validation and topological sort as the depth-first searches they are |
| `DependencyResolver.dfy` | the resolver: operations on the graph map, and the class that updates it in place |
| `ResolverRuns.dfy`, `RegisteredGraphs.dfy`, `ChainSafety.dfy` | what holds of the resolver over whole runs |
| `ResolverReference.dfy` | an exact reference for the resolver, told from the run alone |
| `DependencyCounter.dfy` | the scheduler's completion events and the counters of the jobs table |
| `PriorityQueue.dfy` | the in-place binary heap and sorted key sequences |
| `JobClaims.dfy` | the claim query, run by any number of schedulers, and its agreement with the heap |
| `CountedClaims.dfy` | the claim query on the table whose counters the completion events drive |
| `LockProtocol.dfy`, `DistributedLock.dfy`, `LeaderElection.dfy` | the lock as a protocol, its operations as one process runs them, elections |
| `RetryBudget.dfy` | failure handling split at its reads and writes; retry delays |
| `WorkerPool.dfy` | the autoscaler |
| `CronSchedules.dfy` | cron ticks, pauses and resumes of one schedule |
| `LoadBalancer.dfy` | worker selection, balance and fairness |

Sequential code is modelled in its own form: classes with fields, loops with invariants, each method proved against a
specification. Code whose point is what happens between an `await` and the next is modelled as a state machine with one
step per uninterrupted stretch, and theorems quantify over all finite runs.

## Where the code and its documentation part

The model follows the code. Each of these has a lemma with the witness.

- Two jobs that name each other pass cycle validation, whatever ids it is given: the second one keeps the placeholder's
  empty dependency list. The unit test that expects an error (`tests/unit/DependencyResolver.test.ts:127-138`) describes
  something the code does not do (`MutualDependencyAccepted`). A registration closes a cycle if and only if its id is
  new to the graph and a job it names already leads back to it (`RegisteringClosesCycle`), which between different jobs
  takes an id that was deregistered before (`NoReentryClosesNothing`, `ReentryBuildsCycle`). In a run without one
  validation rejects exactly when a self-dependency is reachable (`OnlyLoopsExactly`, `OnlySelfCycles`).
- A job with several dependencies is unblocked by one accepted event on any one of them as soon as the others are
  resolved themselves, which a job without dependencies always is; whether they have finished plays no part
  (`ReadyIsUnblocked`, `OneEventUnblocks`). The documented guarantee, that every named job has reported first, holds in
  all runs exactly for jobs that name one job only, or accept no status, or name themselves (`WaitsForAllExactly`). What
  does hold of every job in every run is stated exactly by `ReferenceIsExact`, and for chains by `ChainExact`.
- An event that unblocks n jobs counts n for each waiting row. A row becomes claimable exactly when as many jobs are
  ready for the event as the row lacks dependencies, whichever jobs they are (`ClaimableExactly`). So a row with several
  dependencies can be claimed after a report on one of them, when enough other jobs wait for that report too
  (`ClaimableTooEarly`), and if more jobs are ready than it lacks dependencies it is never claimable again
  (`FanOutStrands`). When no dependency is shared, a row with two dependencies is never claimed (`ClaimedRowsAreReady`).
- While one process is LEADER, a campaign by another makes a second one exactly when the key is not live
  (`SecondLeaderExactly`), as when the leader goes silent for a whole ttl (`LateLeaderAllowsTwo`). With every leader on time, two
  LEADERs mean that the release of one of them has deleted its key and that this call is still awaited
  (`StoppingLeaderOverlaps`) or was rejected (`TwoLeadersExplained`). In the second case `stop()` rejects without
  resetting the role, and no call is under way that would end the overlap (`RejectedStopLeavesTwo`).
- A resume that writes a trigger time which a tick has already used since the resume computed it lets that occurrence be
  triggered again (`ResumeWriteExact`); nothing else does (`TriggersAtMostOncePerOccurrence`). Every schedule with two
  occurrences to come has such a run (`AnyScheduleCanTriggerTwice`).
- Retrying a job passes undefined for its completion time, which is then not written: no retry clears it
  (`CancelThenRetry`, `EndIsNeverCleared`).
- Two overlapping failure handlers on one job can count one retry for two (`OverlapLosesRetry`). A job's retries are
  counted right exactly as long as each write of its count comes from a read that is still current
  (`CountedExactlyWhenFresh`).
- The pool oscillates at a queue depth if and only if the size it grows to from its minimum is underloaded
  (`SettlesExactly`, `FlipsForever`); thresholds a factor of two apart rule this out at every depth
  (`SensibleNeverFlips`), closer ones need not (`CloseThresholdsOscillate`).

## Model

| member | source | states |
|---|---|---|
| GraphSearch.Dfs | src/scheduler/DependencyResolver.ts:118-137 | one depth-first visit either reports a closed walk reachable from the given ids or leaves the id in a list in which every dependency precedes its dependent, on every finite graph |
| GraphSearch.ValidateNoCycles | src/scheduler/DependencyResolver.ts:114-142 | throws if and only if some cycle is reachable from the given ids, and the reported path is a real closed walk along dependency edges |
| GraphSearch.Visit | src/scheduler/DependencyResolver.ts:151-162 | emits only reachable ids, each once, after everything it depends on unless a cycle is reachable |
| GraphSearch.TopologicalSort | src/scheduler/DependencyResolver.ts:147-165 | no duplicates, exactly the reachable ids even on cyclic graphs, and dependencies first if and only if no cycle is reachable |
| Walks.OrderedMeansAcyclic | src/scheduler/DependencyResolver.ts:147-165 | a dependencies-first list that contains the ids rules out every reachable cycle |
| DependencyResolution.DependencyResolver.Register | src/scheduler/DependencyResolver.ts:36-61 | the loop with placeholders and reverse edges computes the registration function on the graph |
| DependencyResolution.DependencyResolver.OnJobStateChange | src/scheduler/DependencyResolver.ts:67-96 | graph and returned list are those of the sweep in which flags set for earlier dependents are seen by later ones |
| DependencyResolution.DependencyResolver.CheckAllDependenciesMet | src/scheduler/DependencyResolver.ts:102-108 | true exactly when every listed dependency is present and resolved |
| DependencyResolution.FirstOnIsFirst | src/scheduler/DependencyResolver.ts:77-81 | of several dependencies on the reporting job the first listed one decides |
| DependencyResolution.DependencyResolver.Deregister | src/scheduler/DependencyResolver.ts:171-183 | removes the node and its id from the dependents of what it names |
| DependencyResolution.DependencyResolver.ValidateNoCycles | src/scheduler/DependencyResolver.ts:114-142 | the exact verdict, on the resolver's own graph |
| DependencyResolution.DependencyResolver.TopologicalSort | src/scheduler/DependencyResolver.ts:147-165 | the exact sort, on the resolver's own graph |
| ResolverRuns.WireHasEffect | src/scheduler/DependencyResolver.ts:46-60 | registration changes no dependency list and no flag; new nodes are resolved placeholders; each named job gains the dependent once |
| ResolverRuns.SweepHasEffect | src/scheduler/DependencyResolver.ts:73-89 | an event only turns flags on, exactly those of the returned jobs, each returned once, and keeps the resolved set closed under dependencies |
| ResolverRuns.UnblockedRequired | src/scheduler/DependencyResolver.ts:77-81 | an unblocked job names the reporting job and its first requirement accepts the status |
| ResolverRuns.ReadyIsUnblocked | src/scheduler/DependencyResolver.ts:73-108 | a dependent whose requirement accepts the status and whose dependencies are all resolved when the event arrives is unblocked, wherever it stands in the list |
| ResolverRuns.RunsStaySound | src/scheduler/DependencyResolver.ts:36-108 | over every register/state-change run: resolved set closed under dependencies, every forward edge in a dependents list, no duplicates there |
| ResolverRuns.FlagsNeverGoBack | src/scheduler/DependencyResolver.ts:36-108 | over every such run a resolved flag never goes back and a dependency list never changes |
| ResolverRuns.UnblockedExactlyOnce | src/scheduler/DependencyResolver.ts:71-95 | all returned lists of a run together name no job twice, and exactly the resolved jobs that have dependencies |
| RegisteredGraphs.UnwireEffect | src/scheduler/DependencyResolver.ts:174-181 | deregistration leaves every other node's dependencies and flag alone |
| RegisteredGraphs.DeregisterIsExact | src/scheduler/DependencyResolver.ts:171-183 | the job goes, exactly the jobs it named drop it from their dependents, and everything else stays |
| RegisteredGraphs.RunRanked | src/scheduler/DependencyResolver.ts:36-61 | graphs built without re-entry can be ranked so that each dependency is the job itself or ranked before it |
| RegisteredGraphs.RegisteringClosesCycle | src/scheduler/DependencyResolver.ts:36-61 | a registration closes a walk that was not closed before iff its id is new to the graph and a job it names already leads back to it |
| RegisteredGraphs.OnlyLoopsExactly | src/scheduler/DependencyResolver.ts:36-61 | over every run of register, state change and deregister, all cycles are self-dependencies throughout iff no registration of a new id names another job that leads back to it |
| RegisteredGraphs.ClosedWalkStaysPut | src/scheduler/DependencyResolver.ts:36-61 | every closed walk after such a run stays on one job that names itself |
| RegisteredGraphs.NoReentryClosesNothing | src/scheduler/DependencyResolver.ts:36-61 | runs in which no id is registered again after it was deregistered are such runs |
| RegisteredGraphs.OnlySelfCycles | src/scheduler/DependencyResolver.ts:36-142 | after every such run a cycle is reachable if and only if a self-dependency is |
| RegisteredGraphs.MutualDependencyAccepted | tests/unit/DependencyResolver.test.ts:127-138 | two jobs naming each other leave no cycle for validation to find |
| RegisteredGraphs.ReentryBuildsCycle | src/scheduler/DependencyResolver.ts:171-183 | registering an id again after deregistering it can build a real two-job cycle |
| RegisteredGraphs.DeregisterUndoesRegister | src/scheduler/DependencyResolver.ts:171-183 | deregistering a new job restores the graph except for the placeholders it created |
| ChainSafety.ReporterNotResolved | src/scheduler/DependencyResolver.ts:73-89 | an event never resolves the job that reported it |
| ChainSafety.SingleUnblocked | src/scheduler/DependencyResolver.ts:73-108 | a dependent with one dependency is unblocked exactly by an accepted event of a resolved job |
| ChainSafety.ChainExact | src/scheduler/DependencyResolver.ts:36-108 | in every chain run the flag equals an independent definition over the run: an accepted event of the named job, itself cleared by then, after registration |
| ChainSafety.EventsInDependencyOrder | src/scheduler/DependencyResolver.ts:36-108 | a resolved job's whole line of transitive dependencies reported in dependency order, each with a status its dependent requires |
| ChainSafety.OneEventUnblocks | src/scheduler/DependencyResolver.ts:102-108 | for any list of dependencies nobody else registered, one accepted event on any one of them unblocks the job |
| ChainSafety.ResolvedHadReport | src/scheduler/DependencyResolver.ts:67-108 | in every run a resolved job with dependencies does not name itself and at least one job it names reported an accepted status while it was known |
| ChainSafety.WaitsForAllExactly | src/scheduler/DependencyResolver.ts:67-108 | a job is resolved only after every job it names reported an accepted status, in every run, iff its list names the job itself, or names one job only, or accepts no status |
| ResolverReference.ReferenceIsExact | src/scheduler/DependencyResolver.ts:36-108 | over every register/state-change run: known jobs, dependency lists and visiting order are those told from the run, and a job is resolved iff it has no dependencies or an accepted event came when all jobs it names were cleared, counting those the same event cleared before it |
| ResolverReference.ReturnedAreNewlyCleared | src/scheduler/DependencyResolver.ts:67-96 | an event returns exactly the jobs that the reference clears with it |
| DependencyCounter.JobScheduler.SubmitJob | src/scheduler/JobScheduler.ts:245-252 | the table and the graph are what the run so far, extended by this submission, leaves; with a fresh id the run is one the theorems about runs speak of |
| DependencyCounter.JobScheduler.OnJobCompleted | src/scheduler/JobScheduler.ts:257-265 | each event adds to every PENDING row listing the job exactly the number of jobs it unblocked, changes nothing else, and leaves what the run extended by the event leaves |
| DependencyCounter.BumpsAddUp | src/db/repositories/JobRepository.ts:256-264 | issuing the counter statement n times adds n to exactly the PENDING rows that list the job |
| DependencyCounter.AtMostOneUnblocked | src/scheduler/JobScheduler.ts:257-265 | with single dependents an event unblocks at most the one job that waits on it |
| DependencyCounter.RunFollows | src/scheduler/JobScheduler.ts:245-265 | over every run with single dependents a counter leaves zero only together with the resolved flag, once, after an accepted report |
| DependencyCounter.ClaimedRowsAreReady | src/db/repositories/JobRepository.ts:217-221 | with single dependents a claimed row with dependencies has exactly one, and it reported a status the row requires |
| DependencyCounter.ClaimableIsReady | src/db/repositories/JobRepository.ts:217-221 | with single dependents a claimable row with dependencies has exactly one, and it reported a status the row requires |
| DependencyCounter.StatusIsLastWritten | src/db/repositories/JobRepository.ts:195-239 | over every run a row exists from its submission on, with the status last written by a claim or an update; events write none |
| DependencyCounter.ClaimedOnce | src/db/repositories/JobRepository.ts:206-239 | no row is claimed twice unless it was written back to PENDING in between |
| DependencyCounter.OvershotIsNeverClaimable | src/db/repositories/JobRepository.ts:217-221 | a row counted past its dependencies is never claimable again, whatever follows |
| DependencyCounter.UnblockedCount | src/scheduler/DependencyResolver.ts:67-96 | told from the graph before the event: it unblocks n jobs iff n visited jobs are ready in turn, each judged with the earlier ready ones resolved |
| DependencyCounter.FewUnblocked | src/scheduler/DependencyResolver.ts:67-96 | the cases none and one: no visited job ready; the first ready one makes no later one ready |
| DependencyCounter.ClaimableExactly | src/scheduler/JobScheduler.ts:257-265 | any row that waits on the job becomes claimable iff as many visited jobs are ready as the row lacks dependencies, and stays as it was iff none is |
| DependencyCounter.LackingOne | src/scheduler/JobScheduler.ts:257-265 | a row that lacks one dependency becomes claimable iff some visited job is ready alone |
| DependencyCounter.FanOutStrands | src/scheduler/JobScheduler.ts:260-265 | if more jobs are ready than the row lacks dependencies, it is never claimable again whatever follows |
| DependencyCounter.ClaimableTooEarly | src/db/repositories/JobRepository.ts:217-221 | a row with any m dependencies is claimable after one accepted report on one of them when m - 1 other jobs wait for that report, though nothing else was reported |
| DependencyCounter.FanOutUnblocksBoth | src/scheduler/JobScheduler.ts:257-265 | two jobs that wait only on one job are both unblocked by its completion |
| PriorityQueues.PriorityQueue.Push | src/scheduler/PriorityQueue.ts:30-33 | keeps heap order and adds exactly the item |
| PriorityQueues.PriorityQueue.Pop | src/scheduler/PriorityQueue.ts:35-44 | nothing exactly when empty; otherwise a least item by score, scheduledAt, createdAt, and exactly that item leaves |
| PriorityQueues.PriorityQueue.BubbleUp | src/scheduler/PriorityQueue.ts:64-72 | restores heap order above a misplaced leaf, same items |
| PriorityQueues.PriorityQueue.SinkDown | src/scheduler/PriorityQueue.ts:74-91 | restores heap order below a misplaced root, same items |
| PriorityQueues.SmallestOf | src/scheduler/PriorityQueue.ts:77-84 | the index the sink step swaps with: no child sorts before it, and it is a child only if strictly before the parent |
| PriorityQueues.PriorityQueue.Peek | src/scheduler/PriorityQueue.ts:46-48 | a least item, or nothing exactly when empty |
| PriorityQueues.PriorityQueue.PopMany | src/scheduler/PriorityQueue.ts:35-44 | k pops come out sorted, are no later than anything that stays, and lose nothing |
| PriorityQueues.PriorityQueue.Drain | src/scheduler/PriorityQueue.ts:35-52 | draining yields a sorted permutation of the contents with the key sequence of toArray |
| PriorityQueues.PriorityQueue.ToArray | src/scheduler/PriorityQueue.ts:50-52 | a sorted permutation of the heap |
| PriorityQueues.RootIsLeast | src/scheduler/PriorityQueue.ts:35-37 | in a heap the root sorts no later than any item |
| PriorityQueues.SortedKeysUnique | src/scheduler/PriorityQueue.ts:58-62 | the comparison is total on keys, so a multiset of keys has one sorted sequence |
| PriorityQueues.CompareIsLexicographic | src/scheduler/PriorityQueue.ts:58-62 | score first, then scheduledAt, then createdAt; equal only if all three are |
| PriorityQueues.PopsMatchToArray | src/scheduler/PriorityQueue.ts:35-62 | any two sorted arrangements of the same items show the same keys |
| JobClaims.ClaimPendingJobs | src/db/repositories/JobRepository.ts:210-239 | the batch is the first `limit` rows of an allowed ordering of the unlocked candidates, with the guarantees of ClaimIsExact; exactly those rows become QUEUED |
| JobClaims.ClaimIsExact | src/db/repositories/JobRepository.ts:217-233 | column by column: only unlocked PENDING rows with scheduled_at null or due and dependency_count equal to resolved_dependency_count are claimed; one is left behind only when the batch is full, and none that precedes a claimed one in urgency, then schedule, then age |
| JobClaims.NotBeforeMeansNoEarlier | src/db/repositories/JobRepository.ts:222-231 | the ORDER BY is urgency from CRITICAL to BACKGROUND, then schedule with nulls last, then age |
| JobClaims.BatchIsBest | src/db/repositories/JobRepository.ts:217-233 | a batch holds min(limit, candidates) eligible unlocked rows and leaves none behind that sorts strictly before a claimed one |
| JobClaims.StepConsistent | src/db/repositories/JobRepository.ts:214-236 | every lock, commit, abort and other write keeps open claims disjoint, within limits and still eligible |
| JobClaims.MovedExactlyWhenReturned | src/db/repositories/JobRepository.ts:206-239 | over all interleavings a row goes from PENDING to QUEUED exactly at a step that returns it in a batch |
| JobClaims.StepIsExact | src/db/repositories/JobRepository.ts:195-239 | what lock, commit, abort and other writes do to each row and to the open claims, and nothing else |
| JobClaims.AsManyMovesAsReturns | src/db/repositories/JobRepository.ts:206-239 | over any run, moves of a row and batches returning it are equal in number |
| JobClaims.OpenClaimsDisjoint | src/distributed/LeaderElection.ts:11-14 | claims open at the same time, as in split brain, hold different rows, within their limits |
| JobClaims.HeapKeyOrdersLikeQuery | src/db/repositories/JobRepository.ts:222-231 | on eligible rows the heap comparison with missing schedules last is the query's ORDER BY |
| JobClaims.SelectByHeap | src/scheduler/PriorityQueue.ts:30-44 | k pops from a queue loaded with any items return k sorted items no later than the rest |
| JobClaims.HeapMatchesClaim | src/db/repositories/JobRepository.ts:217-233 | sorted pops that come no later than the rest have exactly the keys an uncontended claim with that limit selects, however ties fall |
| JobClaims.ClaimByHeap | src/db/repositories/JobRepository.ts:217-233 | loading a queue with the eligible rows and popping k gives a batch an uncontended claim with limit k may select, with the keys of every batch it may select |
| CountedClaims.CandidateExactly | src/db/repositories/JobRepository.ts:217-221 | a row is a candidate of the query exactly if its counters make it claimable, it is due and not locked |
| CountedClaims.ClaimAfter | src/db/repositories/JobRepository.ts:206-239 | a claim after any run takes rows that were PENDING with all dependencies counted, continues the run, and with single dependents takes a row with dependencies only if it has one and that one reported |
| LockProtocol.StepConsistent | src/distributed/DistributedLock.ts:58-127 | every step keeps tokens with the process they were issued to and unfinished acquires apart |
| LockProtocol.SpentStays | src/distributed/DistributedLock.ts:84-91 | a token that was set and no longer owns the key never owns it again |
| LockProtocol.OwnerAcquired | src/distributed/DistributedLock.ts:58-71 | whoever owns the live key set it itself |
| LockProtocol.OwnershipContinuity | src/distributed/DistributedLock.ts:58-105 | when a renewal succeeds, its process set the key and it alone has owned it in every state since |
| LockProtocol.OthersUntouched | src/distributed/DistributedLock.ts:78-146 | no step of one process changes a live key or a local entry of another |
| LockProtocol.EntryStep | src/distributed/DistributedLock.ts:58-127 | a process records the lock when it hears of a grant, with the expiry from then, renews the expiry when it hears of a renewal of that token, forgets it when it hears of a refusal or a release, and otherwise keeps it |
| LockProtocol.EntryExactly | src/distributed/DistributedLock.ts:58-127 | over every run a process records the lock iff it heard of a grant and of no loss since its last one, with that token |
| DistributedLocks.DistributedLock.TryAcquire | src/distributed/DistributedLock.ts:58-71 | succeeds exactly when the key is absent or expired, and then holds it; otherwise changes nothing |
| DistributedLocks.DistributedLock.Renew | src/distributed/DistributedLock.ts:78-105 | succeeds exactly while this process holds the key; a lost lock is forgotten and Redis untouched |
| DistributedLocks.DistributedLock.Release | src/distributed/DistributedLock.ts:110-127 | frees the key only if still held, and always forgets the local entry |
| DistributedLocks.DistributedLock.WithLock | src/distributed/DistributedLock.ts:133-146 | runs exactly when the key was free; whatever others did during the callback, the exit frees the key exactly if this process still holds it and changes no other key or entry |
| LeaderElection.KeyRenewedGrants | src/distributed/LeaderElection.ts:99-110 | a renewal with a leader's token that arrives in time is granted and keeps the leader on the key |
| LeaderElection.GrantHeardInTime | src/distributed/LeaderElection.ts:74-77 | a process that hears of its grant in time becomes leader with the key still its own |
| LeaderElection.MoveKeepsInvariant | src/distributed/LeaderElection.ts:50-119 | every campaign, renewal, stop, reply, loss and passage of time keeps each leader on the key |
| LeaderElection.AtMostOneLeader | src/distributed/LeaderElection.ts:50-119 | if every leader's scripts keep reaching Redis within ttl, at most one process leads in every reachable state, and it owns the live key; a LEADER whose own release deleted the key is not counted, and UncountedExactly says which those are |
| LeaderElection.UncountedExactly | src/distributed/LeaderElection.ts:56-66 | with no timing assumption, a LEADER is not counted iff its own release deleted the key and is still awaited or was rejected; its token then does not hold the key |
| LeaderElection.TwoLeadersExplained | src/distributed/LeaderElection.ts:50-119 | with every leader on time, of two processes in the LEADER role one has such a release |
| LeaderElection.MovesRefineLock | src/distributed/LeaderElection.ts:50-119 | every election move is a step of the lock protocol or leaves it alone |
| LeaderElection.LeaderExactly | src/distributed/LeaderElection.ts:56-119 | over every election, with no timing assumption, a process is LEADER iff it heard of a grant and since then did not campaign, hear a refusal or the end of a release, lose a campaign request, or find its lock unrecorded |
| LeaderElection.LeavesExactly | src/distributed/LeaderElection.ts:99-110 | a LEADER leaves the role at exactly these moves; a refused renewal, or a renewal without a local entry, makes it FOLLOWER |
| LeaderElection.MoveSetsRole | src/distributed/LeaderElection.ts:50-119 | the role of every process after every move: CANDIDATE by campaigning, LEADER by a grant, FOLLOWER by stepping down, otherwise unchanged |
| LeaderElection.RunningExactly | src/distributed/LeaderElection.ts:50-69 | a process runs, and campaigns from a timer, only between a start and the next stop |
| LeaderElection.ReachedIsLast | src/distributed/DistributedLock.ts:62-91 | the recorded time of a token is that of the last SET or renewal with it that Redis executed |
| LeaderElection.SecondLeaderExactly | src/distributed/LeaderElection.ts:68-77 | in every reachable state with a LEADER, a campaign by any other process makes a second LEADER iff the key is not live |
| LeaderElection.LateLeaderAllowsTwo | src/distributed/LeaderElection.ts:11-14 | a leader silent for ttl is still LEADER when a second one appears |
| LeaderElection.StoppingLeaderOverlaps | src/distributed/LeaderElection.ts:56-66 | between the delete and the role reset of a stop, a successor can already lead, with every leader on time |
| LeaderElection.RejectedStopLeavesTwo | src/distributed/LeaderElection.ts:61-63 | if the reply to the release is lost the role is never reset: two LEADERs, on time, with no call awaited |
| RetryBudget.StepInBudget | src/workers/WorkerNode.ts:184-258 | every read, write, creation and status change keeps all counts, snapshots and dead letters in budget |
| RetryBudget.BudgetHolds | src/workers/WorkerNode.ts:206-253 | under every interleaving 0 <= retryCount <= maxRetries, retryCount never exceeds the RETRYING writes, and each dead letter says maxRetries + 1 attempts |
| RetryBudget.WriteIsBacked | src/workers/WorkerNode.ts:184-258 | every write goes back to a read that passed the operation's check, changes that row as the operation promises and no other, and adds a dead letter exactly when a failure found the retries used up |
| RetryBudget.ChecksAreExact | src/services/JobService.ts:65-88 | in which statuses cancel, retry and recovery proceed |
| RetryBudget.LimitIsGiven | src/db/repositories/JobRepository.ts:195-199 | a job starts PENDING without retries and keeps the limit it was created with |
| RetryBudget.StatusUpdateIsExact | src/workers/WorkerNode.ts:149-160 | a status update changes the status alone and sets the completion time exactly on success |
| RetryBudget.RetryingIsRecorded | src/workers/WorkerNode.ts:206-221 | a row becomes RETRYING only by a failure handler's write, with the count it recorded |
| RetryBudget.StepCounts | src/workers/WorkerNode.ts:206-221 | a step keeps a job's retries counted iff its write of the count, if any, comes from a current read |
| RetryBudget.CountedExactlyWhenFresh | src/workers/WorkerNode.ts:191-221 | job by job, all along a run its RETRYING writes number retryCount and carried 1, 2, 3, ... iff every write of its count came from a current read |
| RetryBudget.RetriesAreCounted | src/services/RetryService.ts:60-71 | without overlap of handleFailure and manualRetry on a job, its retries are so counted, however the other jobs fare |
| RetryBudget.OverlapLosesRetry | src/workers/WorkerNode.ts:191-221 | with overlap two failures can count as one retry |
| RetryBudget.FailuresEndInDeadLetter | src/workers/WorkerNode.ts:206-253 | a fresh job is RETRYING for maxRetries failures; the next one makes it FAILED and adds exactly one dead letter |
| RetryBudget.RecoveryAgreesWithFailure | src/scheduler/JobScheduler.ts:222-239 | stall recovery requeues a job exactly when its failure would have been retried |
| RetryBudget.CancelThenRetry | src/services/JobService.ts:65-104 | a cancelled job cannot be cancelled again, can be retried, and is then PENDING with its retry count and limit unchanged and the completion time that cancelling set |
| RetryBudget.EndIsNeverCleared | src/db/repositories/JobRepository.ts:42-48 | in every run a completion time, once set, stays set through every retry |
| RetryBudget.DelaysGrowToCap | src/utils/helpers.ts:36-37 | exponential delays never decrease with the attempt and never exceed 60000 |
| RetryBudget.DelayIsExact | src/utils/helpers.ts:28-46 | FIXED is the base, EXPONENTIAL min(base * 2^(attempt-1), 60000), JITTER min((1 + r/5) * base * 2^(attempt-1), 60000) |
| RetryBudget.DelayRecurrence | src/utils/helpers.ts:36-37 | the first exponential delay is min(base, 60000) and each further one min(twice the one before, 60000) |
| RetryBudget.ServiceAgreesWithHandler | src/services/RetryService.ts:49-55 | the service's delay for a job is the one a failure handler reading the same row computes |
| RetryBudget.JitterIsBounded | src/utils/helpers.ts:38-42 | jitter only lengthens the exponential delay, by at most a fifth, under the same cap |
| RetryBudget.RetryDelaysNeverShrink | src/workers/WorkerNode.ts:206-221 | as long as the writes of a job's count come from current reads, the delays of its successive retries never decrease and stay under the cap |
| WorkerPools.WorkerPool.AddWorkers | src/workers/WorkerPool.ts:68-88 | appends exactly that many new workers, none for a negative number |
| WorkerPools.WorkerPool.Start | src/workers/WorkerPool.ts:49-54 | adds exactly the minimum number of workers |
| WorkerPools.WorkerPool.AutoScale | src/workers/WorkerPool.ts:74-93 | the size follows the controller function; growth appends, shrinking drops the last ones |
| WorkerPools.SizeStaysInBounds | src/workers/WorkerPool.ts:82-93 | a size within the bounds stays within them |
| WorkerPools.ScalingIsExact | src/workers/WorkerPool.ts:76-93 | in depth and size alone, with w = max(size, 1): grows iff depth > U*w, depth > size*U*w and size < max, to the least n with depth <= n*U*w or to max; shrinks, to min, iff depth < D*w, size > min and growth is not considered |
| WorkerPools.LoadDecides | src/workers/WorkerPool.ts:76-93 | the same decision in terms of the load per worker |
| WorkerPools.DegenerateGrowth | src/workers/WorkerPool.ts:82-86 | a zero upper threshold grows any loaded pool to the maximum, a negative one never grows |
| WorkerPools.GrownIsSettled | src/workers/WorkerPool.ts:82-93 | after growing, the pool neither grows nor shrinks again at that depth |
| WorkerPools.SettlesExactly | src/workers/WorkerPool.ts:74-93 | for any thresholds, at constant depth every start reaches a fixed point, and within two runs from any size in bounds, iff the size grown to from the minimum is not underloaded |
| WorkerPools.SettlesUnlessFlips | src/workers/WorkerPool.ts:74-93 | a pool that does not flip at this depth is at a fixed point after two runs from its minimum or more, after three from below |
| WorkerPools.FlipsForever | src/workers/WorkerPool.ts:82-93 | otherwise the pool alternates between its minimum and that size for ever |
| WorkerPools.SensibleNeverFlips | src/workers/WorkerPool.ts:32-38 | thresholds a factor of two apart rule oscillation out at every depth |
| WorkerPools.SettlesInTwo | src/workers/WorkerPool.ts:74-93 | with such thresholds a fixed point is reached after at most two runs, from any size |
| WorkerPools.PoolConverges | src/workers/WorkerPool.ts:74-93 | every run after the second leaves the size alone, and bounds hold throughout |
| WorkerPools.DefaultsAreSensible | src/workers/WorkerPool.ts:32-38 | the default configuration meets the convergence condition |
| WorkerPools.CloseThresholdsOscillate | src/workers/WorkerPool.ts:82-93 | a pool with minimum one oscillates at every depth between the upper threshold and twice the lower one |
| CronSchedules.StepKeeps | src/scheduler/CronScheduler.ts:47-121 | every fetch, trigger, pause, resume and wait keeps triggers charged to past occurrences, and no occurrence charged twice iff it does not write a charged time back |
| CronSchedules.TriggersAtMostOncePerOccurrence | src/scheduler/CronScheduler.ts:47-121 | unless a resume writes a time already used, triggers map injectively to occurrences no later than the trigger; jobs created <= triggers counted <= occurrences since creation |
| CronSchedules.CountersAreExact | src/scheduler/CronScheduler.ts:88-114 | over every run total_triggered_count is the number of triggers and the jobs are those whose creation succeeded |
| CronSchedules.JobPerTriggerExactly | src/scheduler/CronScheduler.ts:92-114 | jobs created never exceed triggers, and equal them iff no creation failed |
| CronSchedules.TriggerIsExact | src/scheduler/CronScheduler.ts:61-97 | a trigger is charged to the time its tick found in the row and moves the row to the least occurrence after a moment in between, without undoing a pause |
| CronSchedules.ResumesAreCounted | src/api/routes/schedules.ts:69-87 | what is pending is exactly what resumes computed and have not written |
| CronSchedules.PausedUntilResumed | src/api/routes/schedules.ts:58-87 | from a pause until a resume is written no tick fetches the schedule |
| CronSchedules.ResumeWriteExact | src/api/routes/schedules.ts:69-87 | after any run without stale writes, writing a pending resume can lead to a double trigger iff its time has already been used |
| CronSchedules.StaleWriteTriggersTwice | src/api/routes/schedules.ts:69-87 | from any state in which a pending resume holds a used time, its write and the next tick trigger that occurrence again |
| CronSchedules.AnyScheduleCanTriggerTwice | src/api/routes/schedules.ts:69-87 | every schedule with two occurrences to come has a run that triggers the first one twice |
| CronSchedules.AtomicResumesTriggerOnce | src/api/routes/schedules.ts:69-87 | if no tick reads the row inside a resume, no stale write happens, and triggering is at most once and in the order of the occurrences |
| LoadBalancing.LeastLoaded | src/scheduler/LoadBalancer.ts:87-93 | the first among the least loaded workers |
| LoadBalancing.FilterEligible | src/scheduler/LoadBalancer.ts:77-85 | exactly the workers that are online or busy, have capacity and can run the job type |
| LoadBalancing.FilterKeepsOrder | src/scheduler/LoadBalancer.ts:77-85 | filtering keeps exactly the positions that pass, each once and in order |
| LoadBalancing.LoadBalancer.Affinity | src/scheduler/LoadBalancer.ts:101-119 | the first least loaded matching worker, or the first least loaded of all when none matches |
| LoadBalancing.LoadBalancer.SelectWorker | src/scheduler/LoadBalancer.ts:37-75 | refuses exactly when no worker is up, with room and able to run the job; otherwise one that is, the first best by the chosen strategy |
| LoadBalancing.EligibleExactly | src/scheduler/LoadBalancer.ts:77-119 | eligible means up, with room and able to run the job; matching means in the preferred region with all required labels |
| LoadBalancing.LoadCompare | src/scheduler/LoadBalancer.ts:87-93 | loads compare as the shares of capacity in use |
| LoadBalancing.DecrementUndoesIncrement | src/db/repositories/WorkerRepository.ts:111-118 | finishing a job takes off what assigning it added, and an idle worker stays at zero |
| LoadBalancing.PickKeepsBalance | src/scheduler/LoadBalancer.ts:87-93 | picking a least loaded eligible worker and counting one more keeps the balance bound |
| LoadBalancing.AssignmentsStayBalanced | src/db/repositories/WorkerRepository.ts:111-118 | from idle, counts stay within concurrency, (count_i - 1) * max_j <= count_j * max_i for all workers, and a refusal means all are full |
| LoadBalancing.AssignAll | src/scheduler/LoadBalancer.ts:37-93 | calling the balancer job after job and counting each selection makes such a run, so the table it leaves is balanced and only a full one refused |
| LoadBalancing.RotationState | src/scheduler/LoadBalancer.ts:95-99 | after q rounds and m calls exactly the first m workers of the rotation are one ahead |
| LoadBalancing.RoundRobinIsFair | src/scheduler/LoadBalancer.ts:95-99 | from any starting index k calls choose each of n workers floor(k/n) or ceil(k/n) times |
| LoadBalancing.SelectInTurn | src/scheduler/LoadBalancer.ts:37-99 | k calls of the balancer on a fixed list return each eligible worker floor(k/n) or ceil(k/n) times, from whatever index earlier calls left |

## Assumptions made explicit

- Tokens and identifiers are unique; they are integers here because they are only compared.
- Redis keeps its data. `LeaderElection.OnTime` is the timing assumption: no leader is ttl or more past the last SET or
  PEXPIRE script carrying its token to reach Redis, whether Redis granted it or not. A process whose own release has
  already deleted the key is not counted as a leader; `LeaderElection.UncountedExactly` says exactly which these are.
- Row locks of a claim statement are held from selection to commit, and the claim is the only statement that writes QUEUED.
- Thresholds, loads and delays are exact real numbers; times and priorities are integers.
- Cron ticks do not overlap and the clock does not go back; occurrences are an arbitrary set of times.

## Left out

- Updates in place of LeaderElection, WorkerNode, JobService, RetryService and CronScheduler objects: these are state machines on values, since interference between their reads and writes is what is proved about; object aliasing is modelled only for the lock's renewed entry.
- The scheduler's own use of the leader lock (`tryBecomeLeader`, `startLockRenewal`), including its fallback to run without Redis: elections are modelled through LeaderElection alone.
- Timers of the election: over-approximated by campaigns and renewals at any time, so interval lengths play no part in the safety results.
- `isHeld`: the local expiry is computed after the reply, so it implies nothing about Redis.
- Resending of commands by the Redis client after a reconnect.
- LoadBalancing.LoadBalancer.SelectWorker: the RANDOM strategy is an arbitrary choice among the eligible workers, without a distribution.
- LeaderElection.AtMostOneLeader: does not count a LEADER whose own release deleted the key; counting it, the claim is false, and `TwoLeadersExplained` is what holds of the role itself.
- Worker, start time and error columns of a job row: like the completion time, retries do not clear them.
- CronSchedules.TriggersAtMostOncePerOccurrence: speaks of one schedule; schedules share no state, and deleting one is not modelled.
- "A job is unblocked only after all its dependencies finished" for several dependencies: false of the code; `WaitsForAllExactly` says for which jobs it holds.
- BullMQ (queueing, its own retries, replay from the dead letter queue), job handlers, cron expression parsing and time zones.
- HTTP and GraphQL routes, authentication, rate limits, validation schemas, logging, metrics, notifications, health checks, deployment files.
- Bulk cancel, job statistics, row mapping and the small helpers (formatting, chunking, deep merge): they would only add easy members.
