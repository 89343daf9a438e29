# SharkBatch core in Dafny

SharkBatch is a batch scheduler. A job has a pid, a burst time, a memory
need, and a set of jobs it depends on. A job with no outstanding
dependencies enters a multilevel feedback queue (MLFQ). The top level gets
the longest quantum. Each level below gets `DIFF_QUANTUM` fewer units. A job
that uses up its quantum drops one level, and level 0 round-robins. When a
job completes, it is removed from the dependency trees of its successors.
Every successor whose tree becomes empty is started.

This project models the data structures the scheduler is built from, and the
scheduler itself:

| file | module | models |
|---|---|---|
| `job.dfy` | `Jobs` | `Job.cpp`: the job entity, with its status, burst, successor and dependency lists, and clocks |
| `job_queue.dfy` | `JobQueues` | `JobQueue.cpp`: the FIFO of jobs, including `force_pop` |
| `resizable_table.dfy` | `ResizableTable` | `src/JobHashTable.cpp`: a chained hash table that doubles at a load factor of 0.8 |
| `fixed_table.dfy` | `FixedTable` | `JobHashTable.cpp`: the fixed table of 100 chains that the scheduler uses, with `make_complete` and `add_successors` |
| `int_bst.dfy` | `BST` | `IntBST.cpp`: a BST of ints with a count per node, used for dependency sets |
| `scheduler.dfy` | `Scheduling` | `Scheduler.cpp`: construction, one iteration of `process`, `make_job_from_input`, `read_dependencies`, `start_processing`, `update_successors` |
| `errors.dfy`, `seq_util.dfy` | `Errors`, `SeqUtil` | error codes for C++ exceptions and null returns; sequence and multiset helpers |

How each part is modelled:

- **Stateful objects are classes.** `Job`, `JobQueue`, both hash tables, `IntBST` and `Scheduler` are classes whose methods update their fields.
- **Linked structures are values.**
  - The queue's doubly linked list is a `seq<int>`.
  - A hash table's chains are sequences inside an `array`.
  - The BST is the datatype `Tree`, which `IntBST.root` holds.
- **The scheduler holds its jobs in a `map<int, JobRecord>` arena.**
  - A record's dependency tree is a `Tree`.
  - Its successors are a list of pids.
  - The pids whose table entry was nulled by `make_complete` form the set `completed`.
- **Every C++ exception and every "returns NULL/false" path is a `Result` or `Outcome`.** The operation states its error case.

The main properties proved:

- **Scheduling (`Scheduler.Valid`).**
  - `memoryUsed` always equals the memory of the jobs in the queues.
  - Every queued pid is a known job.
  - Every dependency tree is a BST.
  - Successor lists are duplicate-free and refer only to known jobs.
- **One `Step` of the scheduler.**
  - It picks the highest non-empty level.
  - It runs the front job for `min(quantum, remaining)` units.
  - It then either retires the job or demotes it. Retiring marks the job complete, releases it from its successors' trees, and starts exactly those whose trees became empty. Demotion conserves the multiset of queued jobs.
- **Admission (`AddJob`).**
  - It fails exactly when a listed dependency is unknown.
  - Otherwise, either the job starts at the top level or it is appended to the successor list of every outstanding dependency.
- **Data structures.**
  - BST insert and remove keep the BST order and add or remove exactly one copy.
  - The resizable table's insert, remove and expand keep the stored multiset exact.
  - `force_pop` removes the first occurrence.
  - The fixed table's insert and `make_complete` change the lookup of one pid only.

## Model

| member | source | states |
|---|---|---|
| Jobs.DecrementRule | Job.cpp:26-34 | work done is min(remaining, offered); the job completes iff it fits; on completion the remaining time is left as it was; otherwise the offered time is subtracted |
| Jobs.Job.constructor | Job.cpp:8-11 | a new job has the given pid, is LATENT and has empty successor and dependency lists |
| Jobs.Job.Prepare | Job.cpp:17-24 | only a LATENT job is filled in, becoming WAITING with the given burst and resources; any other status fails with InvalidState and changes nothing; the status never moves backwards |
| Jobs.Job.DecrementTime | Job.cpp:26-34 | returns the work consumed and updates the burst per DecrementRule; the job becomes COMPLETE exactly when the offered time covers the remaining time |
| Jobs.Job.SetStatus | Job.cpp:48-50 | the status becomes the given one |
| Jobs.Job.AddSuccessor | Job.cpp:56-58 | the pid is appended to the successors, which are then non-empty |
| Jobs.Job.AddDependency | Job.cpp:102-104 | the pid is appended to the dependencies, which are then non-empty |
| Jobs.Job.RemoveDependency | Job.cpp:92-100 | the swap-with-last loop removes only copies of the pid; other entries keep their multiplicity; an absent pid leaves the list unchanged; on a duplicate-free list exactly one copy goes and the list stays duplicate-free |
| Jobs.Job.NoSuccessors | Job.cpp:88-90 | true iff there are no successors |
| Jobs.Job.NoDependencies | Job.cpp:106-108 | true iff there are no dependencies, the test for eligibility |
| Jobs.Job.SetClocks | Job.cpp:126-136 | stores the insert, begin and completion stamps |
| Jobs.Job.GetResponse | Job.cpp:110-124 | response time is latency plus turnaround; with ordered stamps it bounds both |
| Jobs.Job.IncrementDeepSuccess | Job.cpp:138-140 | the deep successor count grows by one |
| JobQueues.RemoveFirstAt | JobQueue.cpp:113-123 | unlinking the first node with the pid removes exactly that position |
| JobQueues.RemoveFirstAbsent | JobQueue.cpp:113-127 | when no node has the pid, the queue is unchanged |
| JobQueues.RemoveFirstMultiset | JobQueue.cpp:113-123 | a present pid loses one copy and the length drops by one |
| JobQueues.JobQueue.constructor | JobQueue.cpp:23-27 | a new queue is empty |
| JobQueues.JobQueue.Push | JobQueue.cpp:48-64 | the pid joins at the back |
| JobQueues.JobQueue.Pop | JobQueue.cpp:69-83 | pops the front; on an empty queue reports EmptyQueue and changes nothing |
| JobQueues.JobQueue.Empty | JobQueue.cpp:86-88 | true iff no job is queued |
| JobQueues.JobQueue.Front | JobQueue.cpp:91-97 | yields the front job, or EmptyQueue when there is none |
| JobQueues.JobQueue.Size | JobQueue.cpp:130-132 | the stored count equals the number of queued jobs and is 0 iff the queue is empty |
| JobQueues.JobQueue.ForcePop | JobQueue.cpp:103-127 | reports whether the pid was queued and removes its first occurrence, keeping the others in order |
| JobQueues.FirstIndex | JobQueue.cpp:113-125 | the scan stops at the first node carrying the pid |
| JobQueues.ForcePopAsWrittenDropsWrongJob | JobQueue.cpp:106-111 | as written, a one-element queue is emptied whatever pid is asked for |
| JobQueues.ForcePopAsWrittenFrontCrashes | JobQueue.cpp:115-116 | as written, removing the front of a longer queue dereferences a null `prev` |
| JobQueues.ForcePopAsWrittenInterior | JobQueue.cpp:103-127 | as written, on queues of any length other than one, a successful force_pop agrees with removing the first occurrence |
| JobQueues.PushPushPopFront | JobQueue.cpp:48-97 | FIFO order: after pushing a then b and popping, the front is b |
| ResizableTable.JobHashTable.constructor | src/JobHashTable.cpp:26-32 | all buckets start empty; nothing is stored |
| ResizableTable.JobHashTable.Hash | src/JobHashTable.cpp:120-122 | a non-negative pid hashes to pid mod capacity, within the table |
| ResizableTable.JobHashTable.Find | src/JobHashTable.cpp:43-52 | returns a stored job with that pid, or null exactly when no stored job has it |
| ResizableTable.JobHashTable.Insert | src/JobHashTable.cpp:55-64 | the job is added to the stored multiset; size grows by one; capacity doubles exactly when the load reaches 0.8 |
| ResizableTable.JobHashTable.Remove | src/JobHashTable.cpp:67-79 | reports whether some stored job had the pid; if so exactly one such job leaves the stored multiset, otherwise the buckets are unchanged |
| ResizableTable.JobHashTable.IsEmpty | src/JobHashTable.cpp:102-109 | true iff every bucket is empty, iff nothing is stored |
| ResizableTable.JobHashTable.Expand | src/JobHashTable.cpp:128-144 | capacity doubles, every job is re-placed in its new bucket, and the stored multiset is unchanged |
| ResizableTable.EmptyBuckets | src/JobHashTable.cpp:30 | a fresh bucket array of the given capacity holds nothing |
| ResizableTable.RehashBucket | src/JobHashTable.cpp:137-139 | rehashing one old bucket adds exactly its jobs, each in the bucket its pid hashes to |
| FixedTable.FindNode | JobHashTable.cpp:51-62 | the walk finds the first node with the pid, or NotFound exactly when no node of the chain has it |
| FixedTable.FindNodeAsWritten | JobHashTable.cpp:51-62 | as written, only a match at the head of the chain is returned |
| FixedTable.FindNodeAsWrittenBelowHead | JobHashTable.cpp:58-61 | as written, a pid stored below the head ends in logic_error; an absent pid still ends in the runtime_error |
| FixedTable.FindNodeAsWrittenMissesSecond | JobHashTable.cpp:58-61 | chain [107, 7]: the intended walk finds pid 7 at position 1, the written one throws logic_error |
| FixedTable.FindNodeAfterPush | JobHashTable.cpp:26-34 | pushing a node at the head shadows older nodes with its pid and leaves other pids' lookups unchanged |
| FixedTable.FindNodeAfterUpdate | JobHashTable.cpp:38-43 | nulling a node's job pointer does not change where any pid is found |
| FixedTable.Lookup | JobHashTable.cpp:47-49 | find_job fails exactly when the pid's chain has no node for it |
| FixedTable.LookupRecorded | JobHashTable.cpp:47-49 | a live job found for a pid carries that pid and is one of the inserted jobs |
| FixedTable.JobHashTable.constructor | JobHashTable.cpp:7-11 | all 100 chains start empty |
| FixedTable.JobHashTable.Hash | JobHashTable.cpp:79-81 | pid mod 100 for a non-negative pid |
| FixedTable.JobHashTable.FindJob | JobHashTable.cpp:47-49 | NotFound exactly when no node has the pid; a job found carries that pid and was inserted |
| FixedTable.JobHashTable.Insert | JobHashTable.cpp:26-34 | a node for the job is pushed at the head of its chain; no other chain changes; the job is now found for its pid and every other pid's lookup is unchanged |
| FixedTable.JobHashTable.MakeComplete | JobHashTable.cpp:38-43 | fails with NotFound and no change when the pid is unknown; otherwise the pid now resolves to null and no other pid's lookup changes |
| FixedTable.JobHashTable.AddSuccessors | JobHashTable.cpp:66-76 | walks the dependency tree in post-order; succeeds iff every dependency resolves to a live job; then exactly those jobs gain the new pid at the end of their successors; on failure it stops at the first pid that does not resolve, and exactly the pids before it have gained the entry |
| FixedTable.JobHashTable.AddSuccessorsFrom | JobHashTable.cpp:70-75 | the loop over the dependency vector: the same outcome for a given vector |
| FixedTable.JobHashTable.AddSuccessorTo | JobHashTable.cpp:72-74 | one step succeeds iff the pid resolves to a live job, which alone gains the successor |
| BST.ContainsIn | IntBST.cpp:175-187 | in a BST, the search finds v iff v is stored |
| BST.ElementsMatchValues | IntBST.cpp:175-187 | in a BST, v has a copy iff it is a node value |
| BST.MinNode | IntBST.cpp:135-141 | the leftmost node holds the least value and has no left child |
| BST.MaxNode | IntBST.cpp:157-163 | the rightmost node holds the greatest value |
| BST.HeightFrom | IntBST.cpp:369-377 | height from a node: non-negative and equal to the edge height |
| BST.HeightBelowNodes | IntBST.cpp:357-377 | the height is less than the number of nodes |
| BST.CountNodes | IntBST.cpp:389-396 | the node count equals the number of distinct values in a BST |
| BST.TotalIsSumOfElements | IntBST.cpp:407-414 | the total equals the sum of every stored copy |
| BST.PostOrder | IntBST.cpp:27-35 | the post-order vector has one entry per node and holds exactly the tree's values |
| BST.PostOrderDistinct | IntBST.cpp:27-35 | in a BST the post-order vector has no duplicates |
| BST.PreOrderCopy | IntBST.cpp:107-120 | the copy equals the original |
| BST.InsertInto | IntBST.cpp:194-239 | insert adds v to the values |
| BST.InsertOrdered | IntBST.cpp:194-239 | insert keeps the BST order |
| BST.InsertElements | IntBST.cpp:194-239 | insert adds exactly one copy of v (a repeat bumps the node's count) |
| BST.InsertTotal | IntBST.cpp:194-239 | insert raises the total by v |
| BST.InsertNodeCount | IntBST.cpp:194-239 | insert adds a node iff v was absent |
| BST.DeleteMinElements | IntBST.cpp:315-332 | unlinking the right subtree's minimum removes exactly its copies |
| BST.DeleteMinOrdered | IntBST.cpp:315-332 | unlinking the minimum keeps the BST order and drops only that value |
| BST.TwoChildOrdered | IntBST.cpp:315-332 | replacing a two-child node by its successor keeps the order and drops the node's value |
| BST.TwoChildElements | IntBST.cpp:315-332 | with the successor's count carried over, exactly one copy of the removed value goes |
| BST.RemoveNodeOrdered | IntBST.cpp:280-307 | removing a node keeps the order; its value stays iff it had more than one copy |
| BST.RemoveNodeElements | IntBST.cpp:280-307 | removing a node drops exactly one copy of its value |
| BST.RemoveFromOrdered | IntBST.cpp:251-273 | remove reports whether v was present, keeps the order, and leaves the tree unchanged when v was absent |
| BST.RemoveFromElements | IntBST.cpp:251-273 | remove drops exactly one copy of v |
| BST.TwoChildAsWrittenLosesCopies | IntBST.cpp:330 | as written, removing 5 from {3, 5, 7, 7} also loses a copy of 7, because only the successor's data is copied |
| BST.IntBST.constructor | IntBST.cpp:61-64 | a new tree is empty |
| BST.IntBST.Copy | IntBST.cpp:86-89 | the copy holds the same tree |
| BST.IntBST.Insert | IntBST.cpp:194-207 | the tree stays a BST and gains exactly one copy of v |
| BST.IntBST.Remove | IntBST.cpp:251-254 | reports whether v was present; the tree stays a BST and loses exactly one copy of v; nothing changes when v was absent |
| BST.IntBST.Contains | IntBST.cpp:167-170 | true iff v has a copy |
| BST.IntBST.FindMin | IntBST.cpp:124-130 | INT_MAX on an empty tree; otherwise the least value |
| BST.IntBST.FindMax | IntBST.cpp:145-152 | INT_MAX on an empty tree; otherwise the greatest value |
| BST.IntBST.TreeHeight | IntBST.cpp:357-363 | -1 on an empty tree; below the node count |
| BST.IntBST.NodeCount | IntBST.cpp:382-385 | the number of distinct values |
| BST.IntBST.CountTotal | IntBST.cpp:399-402 | the sum of all stored copies |
| BST.IntBST.IsEmpty | IntBST.cpp:37-39 | true iff the tree has no node, iff nothing is stored |
| BST.IntBST.ReturnVector | IntBST.cpp:21-25 | the post-order vector of the tree, duplicate-free and holding exactly the stored values |
| BST.IntBST.ReturnVectorFrom | IntBST.cpp:27-35 | the recursive walk appends the subtree's post-order |
| Scheduling.Scan | Scheduler.cpp:49-55 | from a valid start level, finds the highest non-empty level at or below it, or NoRunnableJob iff all those levels are empty |
| Scheduling.Select | Scheduler.cpp:45-59 | the highest non-empty level, or NoRunnableJob iff every level is empty |
| Scheduling.SelectAsWritten | Scheduler.cpp:45-55 | as written, the scan starts one past the top level and always reads out of range |
| Scheduling.SelectAsWrittenMissesWaitingJob | Scheduler.cpp:45 | one level holding one job: the intended scan picks it, the written one goes out of range |
| Scheduling.SliceConsumes | Scheduler.cpp:64-69 | a slice uses min(quantum, remaining) units; the job completes iff it fits; otherwise the used units are subtracted; resources are untouched |
| Scheduling.DemotedConserves | Scheduler.cpp:80-92 | demotion keeps the number of levels and the multiset of queued jobs, and puts the job at the back of the level below (or of level 0) |
| Scheduling.DemotedMemory | Scheduler.cpp:80-92 | demotion leaves the queued memory unchanged |
| Scheduling.LevelMemoryFront | Scheduler.cpp:74-75 | popping a level's front frees exactly that job's charge |
| Scheduling.QueuedMemoryUpdate | Scheduler.cpp:72-92 | replacing one level changes the queued memory by the difference of the two levels |
| Scheduling.QueuedUpdate | Scheduler.cpp:72-92 | replacing one level changes the queued multiset by the difference of the two levels |
| Scheduling.AdmitTwice | Scheduler.cpp:264-272 | starting jobs one batch after another equals starting the concatenation |
| Scheduling.StartedExactly | Scheduler.cpp:266-270 | a successor is started iff removing the completed pid leaves its dependency tree empty |
| Scheduling.FilterDependencies | Scheduler.cpp:212-220 | NotFound iff some listed pid is unknown (find_job throws); otherwise keeps exactly the listed pids that are not complete |
| Scheduling.Scheduler.QuantaDecrease | Scheduler.cpp:25-27 | quanta are positive and strictly decrease with the level |
| Scheduling.Scheduler.constructor | Scheduler.cpp:14-31 | numQueues empty levels with quanta BASE - i * DIFF, no memory used, no jobs |
| Scheduling.Scheduler.Create | Scheduler.cpp:15-19 | logic_error iff more levels are asked for than BASE_QUANTUM / DIFF_QUANTUM |
| Scheduling.Scheduler.StartProcessing | Scheduler.cpp:228-232 | the job becomes RUNNING, joins the back of the top level, and its resources are added to the memory used |
| Scheduling.Scheduler.ReadDependencies | Scheduler.cpp:202-222 | fails iff a listed pid is unknown; otherwise returns a BST holding exactly the filtered pids, with their multiplicities |
| Scheduling.Scheduler.AddSuccessors | JobHashTable.cpp:66-76 | every job in the dependency tree gains the new pid at the end of its successors; no other job changes |
| Scheduling.Scheduler.AddSuccessorsFrom | JobHashTable.cpp:70-75 | the loop over the post-order vector appends the pid to exactly the listed jobs |
| Scheduling.Scheduler.AddJob | Scheduler.cpp:168-196 | fails with no change iff a listed dependency is unknown; otherwise records the job and either starts it (no outstanding dependencies) or links it as a successor of each outstanding one; the invariant is kept |
| Scheduling.Scheduler.Dispatch | Scheduler.cpp:184-196 | a job without dependencies starts; otherwise it waits and is appended to its dependencies' successor lists |
| Scheduling.Scheduler.SelectCurrent | Scheduler.cpp:45-59 | picks the front job of the highest non-empty level, or NoRunnableJob with priority -1 |
| Scheduling.Scheduler.RunSlice | Scheduler.cpp:64-69 | the unit-decrement loop gives the job its slice per the slice rule; the leftover slice is the quantum minus the used units |
| Scheduling.Scheduler.UpdateSuccessors | Scheduler.cpp:264-272 | the completed pid leaves every successor's tree; exactly the successors whose trees become empty are started, in list order |
| Scheduling.Scheduler.ReleaseOne | Scheduler.cpp:266-270 | one successor loses the pid; it starts iff its tree is then empty |
| Scheduling.Scheduler.Retire | Scheduler.cpp:72-79 | the job leaves its level and becomes complete; its successors are released and started as above; the memory invariant is kept |
| Scheduling.Scheduler.DemoteCurrent | Scheduler.cpp:80-92 | the job moves to the back of the level below (level 0 round-robins); the multiset of queued jobs is unchanged |
| Scheduling.Scheduler.Step | Scheduler.cpp:45-95 | NoRunnableJob with no change iff every level is empty; otherwise the top job is run for one slice and then retired or demoted, keeping the invariant |
| Scheduling.Scheduler.RunCurrent | Scheduler.cpp:64-95 | the slice followed by completion or demotion; the logic_error branch cannot be reached |

## Left out

- I/O is not modelled. This covers `cin`/`cout`, the curses display, `main`, the `print_*` members and `lookup_from_input`. `make_job_from_input` and `read_dependencies` take their pid lists as parameters, and the `-1` terminator is not modelled.
- Freeing memory is not modelled. Destructors, `delete` and `clear` are left out, and so is the dangling `backPtr` that `pop` leaves when it empties a one-node queue (JobQueue.cpp:73-76). That pointer is harmless, because `push`, `empty` and `force_pop` test `frontPtr` first.
- Integers are unbounded. No `int` overflow is modelled.
- Statistics and clock reads are left out. `JIFFIE_TIME` is not modelled, and the clock values are parameters of `SetClocks`.
- `MAX_MEMORY`, `waitingOnMem`, `move_from_waiting`, `deep_search_update` and `kill` are not modelled. The scheduler never checks memory against a limit.
- `JobHeap.h` is not part of this model.
- The scheduler is written against an older Job API than `Job.cpp`: `is_complete`, a one-unit `decrement_time()`, and an `IntBST` of dependencies. Its jobs are therefore `JobRecord` values rather than `Jobs.Job` objects.
  - Job completion is taken to mean the status is COMPLETE.
  - A newly made job is WAITING.
  - The four-argument `Job` constructor is not part of this model.
- Scheduling.Scheduler: the job table is an arena `map<int, JobRecord>` searched with the intended `find`. Pids whose table entry was nulled form the set `completed`. The written `find` only matches chain heads (see Findings).
- Scheduling.Scheduler.AddJob requires a pid not yet in the table. In the source, re-inserting a pid shadows the older node.
- Scheduling.Scheduler.StartProcessing and Scheduling.Scheduler.AddJob require at least one level. With zero levels, `runs[runs.size() - 1]` is undefined behaviour.
- Scheduling.FilterDependencies keeps a dependency listed twice twice. The BST then counts it twice, one completion removes one copy, and that job is never released. This is modelled as written.
- Negative pids are excluded by `requires` in the hash tables. The source hashes them to a negative bucket index, which is undefined behaviour.
- ResizableTable.JobHashTable.Insert states the 0.8 load factor as `5 * size >= 4 * capacity`. This is the integer form of the source's floating-point comparison.
- ResizableTable: the default constructor's `DEFAULT_CAP` is defined in a header that is not part of this model. Only the capacity constructor is modelled.
- ResizableTable.JobHashTable.Remove does not decrement `size`, and the model keeps that as written.
- JobQueues.JobQueue.ForcePop decrements the stored size, which the source never does (JobQueue.cpp:103-127). JobQueues.ForcePopAsWrittenInterior states the as-written behaviour, where the count is left unchanged.
- BST: `find_parent` and `link_parent` (IntBST.cpp) are not separate members. Their effect, unlinking the right subtree's minimum, is the function `BST.DeleteMin`.
- BST: the tree is a value. `IntBST` methods replace `root` rather than relinking nodes in place, so aliasing of nodes is not modelled.
- Jobs.Job.DecrementTime leaves the remaining time unchanged when a job completes. The source does the same and does not zero it.
- BST.IntBST.FindMin returns INT_MAX for an empty tree. The source's comment says INT_MIN, but the code returns INT_MAX, and the model follows the code.

## Findings

| source | as written | input that shows it | evidently intended | confidence | as-written member | corrected member |
|---|---|---|---|---|---|---|
| JobHashTable.cpp:58-61 | the result of the recursive `find` is discarded, so a match below the head of a chain falls through to `throw logic_error` | chain `[107, 7]` in bucket 7, lookup of pid 7 | return the recursive call's node | not executed | FixedTable.FindNodeAsWrittenMissesSecond | FixedTable.FindNode |
| JobQueue.cpp:106-111 | a one-element queue is emptied and `true` is returned without checking the pid | queue `[5]`, `force_pop(7)` | remove only a node carrying the pid | not executed | JobQueues.ForcePopAsWrittenDropsWrongJob | JobQueues.JobQueue.ForcePop |
| JobQueue.cpp:115-116 | unlinking the front or back node dereferences its null `prev` or `next` | queue `[5, 6]`, `force_pop(5)` | unlink guarded by null checks on both neighbours | not executed | JobQueues.ForcePopAsWrittenFrontCrashes | JobQueues.JobQueue.ForcePop |
| IntBST.cpp:330 | only the successor's `data` is copied into the removed node, not its `count` | tree {3, 5, 7, 7}, `remove(5)` leaves {3, 7} | copy the count with the data, so exactly one copy of 5 goes (BST.TwoChildElements) | not executed | BST.TwoChildAsWrittenLosesCopies | BST.RemoveWithTwoChild |
| Scheduler.cpp:45 | the scan starts at `runs.size()`, one past the top level, and reads `runs[runs.size()]` | one level holding one job | start at `runs.size() - 1` | not executed | Scheduling.SelectAsWrittenMissesWaitingJob | Scheduling.Select |
