# Verified model of the NUMA expression benchmarks and of UMF memspaces

This project models, in Dafny 4.11, the parts of the repository with the most state and
branching, as the code is written, and proves what they promise.

* **The transaction engine** (`TransactionEngine`, `TransactionInvariants`,
  `TransactionTheorems`, `TransactionEffects`). Any number of threads look keys up in, and move
  keys between, two pools of binary search trees. Each tree has a mutex, taken one at a time.
  The engine is a transition system over forest, mutex owners and thread phases. Main results:
  every run that has come to rest is in exactly the state of a serial run, each step of which
  does to keys and search paths what its job says; no run deadlocks; without new jobs every run
  ends after a fixed number of steps; all trees stay ordered.
* **The harness around it** (`Barriers`, `Harness`, `HarnessTheorems`, `HarnessClocks`,
  `ForestInit`, `ForestContents`, `IntervalLog`): launch counts, start and end barrier, the
  merge of the counters under the global mutex, the initialisation by two threads between three
  barriers, and the log of operation counts per interval. Main results: barrier separation,
  conservation of the counters node by node, serializability of the whole program, termination
  exactly for even thread counts and 1, race-free initialisation that leaves in every tree
  exactly the keys drawn for it, and, over every interleaving and every clock, what each thread
  logs and the exact condition under which no log leaves its vector.
* **The pointer structures**: classes over linked nodes, proved against trees (`SearchTrees`,
  `TreePaths`, `TreeHistories`) and sequences (`QueueHistories`, `ListHistories`). The original
  classes (`BinarySearchTrees`, `LinkedNodes`, `Queues`, `LinkedLists`) and the classes
  generated from them for `numa<T,N>` (`NumaBinarySearchTrees`, `NumaNodes`, `NumaQueues`,
  `NumaLinkedLists`) are modelled separately, each from its own text: the generated ones keep
  their members in cells (`NumaCells`) that are loaded, stored and zeroed by default, have a
  node class of their own, and allocate every node on NUMA node N. Both rest on the same facts
  about linked memory (`TreeHeaps`, `LinkedHeaps`). Main results: each generated class simulates
  its original over every operation sequence, with every node on NUMA node N; `remove` on
  ordered trees does exactly two things; the queue is first in, first out over every history;
  the list matches its sequence operations and crashes in exactly two situations.
* **UMF memspaces** (`NodeLists`, `Memspaces`, `MemspaceFilters`, `MemspaceOrders`,
  `MemspaceSessions`): collections of owned, cloned memory targets, with a failure possible at
  every allocation and every target operation. Main results: over all histories of calls, the
  effect of every call, the ownership ledger after each and exactly what is left in the end;
  all-or-nothing behaviour of each operation; the exact outcome of the in-place filter
  (including when it uses a destroyed target), the deriving filter and the sort.
* **ubench** (`GlobMatcher`, `Sampling`): the wildcard matcher and the sampling loop. Main
  results: soundness of the matcher, exactly which names every filter accepts, and the exact
  class of filters for which that is its language; every stamp inside the buffer and averages
  that telescope.

## Where the code departs from its intent or its documentation

The model follows the code.

* `BinarySearchTree::remove` (Exprs/include/BinarySearch.hpp:158-172) searches the left subtree
  when the key is larger than the root, and drops the whole tree when the key is at the root.
  `SearchTrees.RemoveMeetsIntentIff` says exactly when the result is the intended one. The last
  test of `remove` repeats the second one and never holds.
* The tree's `lookup` is documented as telling whether the key is present
  (Exprs/include/BinarySearch.hpp:62-71); it returns the level at which the search ended.
* `BinaryNode::setData` assigns its parameter to itself (Exprs/include/BinaryNode.hpp:47), so a
  node's key is a constant here.
* `LinkedList::insertAtIndex` is documented as inserting after the index and inserts before it;
  at index 0 of a non-empty list it writes through null. `removeTail` is documented as using
  `tail`, which nothing maintains; on a list of one it writes through null. `insertAfter` and a
  negative `insertAtIndex` insert into the empty list.
* `BinarySearchTest` never initialises `ops` (Exprs/Examples/TestSuite.cpp:881); here it starts
  at an arbitrary value per thread.
* `numa_BST_init` creates `BST_reader_lk0` only: `ForestInit.NodeOneReadersStayNull`.
* The base allocator returns null for size 0
  (unified-memory-framework/src/base_alloc/base_alloc_global.c:154-156). Hence the last target
  of a memspace cannot be removed, and an empty memspace can be neither cloned, filtered nor
  sorted. A filter that drops all of two or more targets removes all but the last and then
  re-adds from targets it has already destroyed: `MemspaceFilters.NeverEmptied`.
* In the matcher a trailing `*` does not stand for the empty string, and a mismatch after the
  last `*` is not retried from a later start than the scan reached:
  `GlobMatcher.DecidesLanguageIffStarFree`, `GlobMatcher.ExactInnerStar`.
* The log vector has `duration / interval` slots, rounded down, and the loop does not test the
  index: `HarnessClocks.NoOverrunIffDivides`.
* The generated `numa()` of the tree leaves `root` to its cell's default constructor, and the
  generated `numa(int)` of the node its link (Output/Exprs/include/BinarySearch.hpp:187-188,
  Output/Exprs/include/Node.hpp:90-92). Both are null, because a cell is zeroed
  (numaLib/numatype.hpp:101-103); the original `Node(int)` leaves its link unset.

## Model

| member | source | states |
|---|---|---|
| SearchTrees.InsertKeys | Exprs/include/BinarySearch.hpp:221-262 | insertion adds exactly the key to the key set of any tree |
| SearchTrees.InsertOrdered | Exprs/include/BinarySearch.hpp:221-262 | insertion keeps the search order and freedom from duplicates |
| SearchTrees.InsertChangesIffAbsent | Exprs/include/BinarySearch.hpp:221-262 | on an ordered tree an insertion changes nothing if and only if the key is present |
| SearchTrees.DeleteAbove | Exprs/include/BinarySearch.hpp:388-400 | deleting a key above all keys of a subtree gives back the same subtree |
| SearchTrees.RemoveExactly | Exprs/include/BinarySearch.hpp:158-172 | on ordered trees `remove` empties the tree if the key is at the root and otherwise leaves it as it was; the branch on freed memory is never reached |
| SearchTrees.RemoveMeetsIntentIff | Exprs/include/BinarySearch.hpp:158-172 | `remove` takes out exactly the key if and only if the key is absent or is the whole tree |
| SearchTrees.FreedAccessOnUnorderedTree | Exprs/include/BinarySearch.hpp:409-426 | without order the branch on freed memory can be reached, by a given tree |
| TreePaths.LevelCountsTurns | Exprs/include/BinarySearch.hpp:282-311 | the search follows exactly one path, left where the key is smaller and right where it is larger, to the key or a missing child; the level is its number of turns |
| TreePaths.SearchFinds | Exprs/include/BinarySearch.hpp:282-311 | on an ordered tree the search ends at the key if and only if the tree holds it |
| TreePaths.InsertLevels | Exprs/include/BinarySearch.hpp:221-311 | the level returned by an insertion is the length of the search path, which a lookup afterwards follows too, within the new depth; the depth grows by at most one |
| TreePaths.InsertAtPath | Exprs/include/BinarySearch.hpp:221-262 | insertion puts the key at the end of its search path and leaves the key at every other path as it was |
| TreePaths.DepthIsLongestPath | Exprs/include/BinarySearch.hpp:271-280 | the depth is the number of nodes on a longest path from the root |
| TreePaths.DeleteTakesOut | Exprs/include/BinarySearch.hpp:388-428 | on an ordered tree the deletion takes out exactly its key and keeps the order, unless the key has two children, and then it writes through the node it deleted |
| BinarySearchTrees.BinarySearchTree.constructor | Exprs/include/BinarySearch.hpp:124-126 | a new tree is valid and empty |
| BinarySearchTrees.BinarySearchTree.Insert | Exprs/include/BinarySearch.hpp:221-262 | the pointer insertion refines insertion into the tree value, returns the number of turns of the search, and keeps order and linking |
| BinarySearchTrees.BinarySearchTree.Hang | Exprs/include/BinarySearch.hpp:254-261 | linking the leaf below the last node visited is the insertion |
| BinarySearchTrees.BinarySearchTree.Lookup | Exprs/include/BinarySearch.hpp:282-311 | the search returns the number of turns of its path through the tree value |
| BinarySearchTrees.BinarySearchTree.GetDepth | Exprs/include/BinarySearch.hpp:265-269 | the depth of the tree value, the number of nodes on a longest path |
| BinarySearchTrees.BinarySearchTree.GetDepthHelper | Exprs/include/BinarySearch.hpp:271-280 | the depth of the subtree linked below a node |
| BinarySearchTrees.BinarySearchTree.DeleteHelper | Exprs/include/BinarySearch.hpp:388-428 | pointer deletion refines deletion from the tree value and leaves a well-linked shape; it writes through the deleted node if and only if the tree deletion says so |
| BinarySearchTrees.BinarySearchTree.DeleteInLeft | Exprs/include/BinarySearch.hpp:391-393 | deleting in the left child changes only that subtree, or the deleted node is written through there |
| BinarySearchTrees.BinarySearchTree.DeleteInRight | Exprs/include/BinarySearch.hpp:394-396 | deleting in the right child changes only that subtree, or the deleted node is written through there |
| BinarySearchTrees.BinarySearchTree.Remove | Exprs/include/BinarySearch.hpp:158-172 | the pointer removal keeps the tree valid and its contents, or empties it if the key was at the root |
| BinarySearchTrees.BinarySearchTree.Perform | Exprs/include/BinarySearch.hpp:158-311 | every operation has the effect and answer of its tree-value counterpart, from every valid tree |
| BinarySearchTrees.BinarySearchTree.Run | Exprs/include/BinarySearch.hpp:158-311 | over every operation sequence the answers and contents are those of the tree value |
| NumaBinarySearchTrees.NumaBinarySearchTree.constructor | Output/Exprs/include/BinarySearch.hpp:187-188 | the root, which the constructor does not mention, is null, and the tree is valid and empty |
| NumaBinarySearchTrees.NumaBinarySearchTree.Insert | Output/Exprs/include/BinarySearch.hpp:229-258 | the generated insertion, on cells, refines insertion into the tree value, returns the number of turns of the search, and takes the leaf from NUMA node N |
| NumaBinarySearchTrees.NumaBinarySearchTree.Hang | Output/Exprs/include/BinarySearch.hpp:252-257 | linking the leaf below the last node visited is the insertion |
| NumaBinarySearchTrees.NumaBinarySearchTree.Lookup | Output/Exprs/include/BinarySearch.hpp:269-290 | the search returns the number of turns of its path through the tree value |
| NumaBinarySearchTrees.NumaBinarySearchTree.GetDepth | Output/Exprs/include/BinarySearch.hpp:259-261 | the depth of the tree value, the number of nodes on a longest path |
| NumaBinarySearchTrees.NumaBinarySearchTree.GetDepthHelper | Output/Exprs/include/BinarySearch.hpp:262-268 | the depth of the subtree linked below a node |
| NumaBinarySearchTrees.NumaBinarySearchTree.DeleteHelper | Output/Exprs/include/BinarySearch.hpp:193-223 | the generated deletion refines deletion from the tree value; it writes through the deleted node if and only if the tree deletion says so |
| NumaBinarySearchTrees.NumaBinarySearchTree.DeleteInLeft | Output/Exprs/include/BinarySearch.hpp:196-197 | deleting in the left child changes only that subtree, or the deleted node is written through there |
| NumaBinarySearchTrees.NumaBinarySearchTree.DeleteInRight | Output/Exprs/include/BinarySearch.hpp:198-199 | deleting in the right child changes only that subtree, or the deleted node is written through there |
| NumaBinarySearchTrees.NumaBinarySearchTree.Remove | Output/Exprs/include/BinarySearch.hpp:351-364 | the generated removal keeps the tree valid and its contents, or empties it if the key was at the root |
| NumaBinarySearchTrees.NumaBinarySearchTree.Perform | Output/Exprs/include/BinarySearch.hpp:187-364 | every operation has the effect and answer of its tree-value counterpart |
| NumaBinarySearchTrees.NumaBinarySearchTree.Run | Output/Exprs/include/BinarySearch.hpp:187-364 | over every operation sequence the answers and contents are those of the tree value, with all nodes on NUMA node N |
| NumaBinarySearchTrees.RunBoth | Output/Exprs/include/BinarySearch.hpp:187-367 | over every operation sequence an object of the generated class gives the answers and contents of one of the original class, with all its nodes on its NUMA node |
| Queues.Queue.Add | Exprs/include/Queue.hpp:107-122 | the value is appended; front, rear and links stay consistent |
| Queues.Queue.Del | Exprs/include/Queue.hpp:87-105 | the first value is taken out and returned; -1 on the empty queue |
| Queues.Queue.Destroy | Exprs/include/Queue.hpp:75-85 | every node is deleted, once |
| Queues.Queue.Perform | Exprs/include/Queue.hpp:87-122 | every operation matches its sequence operation, and front is null if and only if rear is |
| QueueHistories.FirstInFirstOut | Exprs/include/Queue.hpp:87-122 | over every history, the values served followed by those still queued are those queued at first followed by those added |
| Queues.Queue.Run | Exprs/include/Queue.hpp:87-122 | over every operation sequence the answers and contents are those of the sequence operations |
| NumaNodes.NumaNode.constructor | Output/Exprs/include/Node.hpp:90-92 | a generated node is on its NUMA node and holds the datum, and its link, which the constructor does not mention, is null |
| NumaQueues.NumaQueue.constructor | Output/Exprs/include/Queue.hpp:132-135 | front and rear are null and the queue is valid and empty |
| NumaQueues.NumaQueue.Add | Output/Exprs/include/Queue.hpp:160-171 | the value is appended with a node from NUMA node N; front, rear and links stay consistent |
| NumaQueues.NumaQueue.Del | Output/Exprs/include/Queue.hpp:147-159 | the first value is taken out and returned; -1 on the empty queue |
| NumaQueues.NumaQueue.Destroy | Output/Exprs/include/Queue.hpp:136-146 | every node is deleted, once |
| NumaQueues.NumaQueue.Perform | Output/Exprs/include/Queue.hpp:147-171 | every operation matches its sequence operation |
| NumaQueues.NumaQueue.Run | Output/Exprs/include/Queue.hpp:132-171 | over every operation sequence the answers and contents are those of the sequence operations, with all nodes on NUMA node N |
| NumaQueues.RunBoth | Output/Exprs/include/Queue.hpp:132-186 | over every operation sequence an object of the generated class gives the answers and contents of one of the original class, with all its nodes on its NUMA node |
| LinkedLists.LinkedList.PutFirst | Exprs/include/LinkedList.hpp:216-222 | the statements that make a new node the head put the datum first; `length` stays the number of reachable nodes |
| LinkedLists.LinkedList.PutAfter | Exprs/include/LinkedList.hpp:238-243 | the statements that link a new node behind the node in front of position i insert the datum there |
| LinkedLists.LinkedList.RemoveHead | Exprs/include/LinkedList.hpp:171-187 | the first value is taken out and returned; -1 on the empty list |
| LinkedLists.LinkedList.Append | Exprs/include/LinkedList.hpp:189-214 | the value is appended |
| LinkedLists.LinkedList.Prepend | Exprs/include/LinkedList.hpp:216-222 | the value is put first |
| LinkedLists.LinkedList.InsertAfter | Exprs/include/LinkedList.hpp:224-248 | insertion after the first occurrence; nothing without one; into the empty list always |
| LinkedLists.LinkedList.RemoveTail | Exprs/include/LinkedList.hpp:250-279 | the last value of two or more is taken out and returned; -1 on none; a crash if and only if there is exactly one |
| LinkedLists.LinkedList.InsertAtIndex | Exprs/include/LinkedList.hpp:281-314 | insertion before position 1 <= index < length; a crash if and only if the index is 0 and the list is not empty; the negative and too large cases |
| LinkedLists.LinkedList.LookUp | Exprs/include/LinkedList.hpp:337-349 | true if and only if the value is in the list |
| LinkedLists.LinkedList.Destroy | Exprs/include/LinkedList.hpp:158-169 | every node is deleted, once, and the length ends at 0 |
| LinkedLists.LinkedList.Perform | Exprs/include/LinkedList.hpp:171-349 | every operation matches its sequence operation and outcome |
| LinkedLists.LinkedList.Run | Exprs/include/LinkedList.hpp:171-349 | over every operation sequence, up to and including the first crash, the outcomes and contents are those of the sequence operations |
| NumaLinkedLists.NumaLinkedList.constructor | Output/Exprs/include/LinkedList.hpp:214-218 | head and tail are null, the length is 0 and the list is valid and empty |
| NumaLinkedLists.NumaLinkedList.RemoveHead | Output/Exprs/include/LinkedList.hpp:231-242 | the first value is taken out and returned; -1 on the empty list |
| NumaLinkedLists.NumaLinkedList.Append | Output/Exprs/include/LinkedList.hpp:243-263 | the value is appended with a node from NUMA node N |
| NumaLinkedLists.NumaLinkedList.Prepend | Output/Exprs/include/LinkedList.hpp:264-269 | the value is put first with a node from NUMA node N |
| NumaLinkedLists.NumaLinkedList.InsertAfter | Output/Exprs/include/LinkedList.hpp:270-290 | insertion after the first occurrence; nothing without one; into the empty list always |
| NumaLinkedLists.NumaLinkedList.RemoveTail | Output/Exprs/include/LinkedList.hpp:291-311 | the last value of two or more is taken out and returned; -1 on none; a crash if and only if there is exactly one |
| NumaLinkedLists.NumaLinkedList.InsertAtIndex | Output/Exprs/include/LinkedList.hpp:312-340 | insertion before position 1 <= index < length; a crash if and only if the index is 0 and the list is not empty; the negative and too large cases |
| NumaLinkedLists.NumaLinkedList.LookUp | Output/Exprs/include/LinkedList.hpp:359-369 | true if and only if the value is in the list |
| NumaLinkedLists.NumaLinkedList.Destroy | Output/Exprs/include/LinkedList.hpp:219-230 | every node is deleted, once, and the length ends at 0 |
| NumaLinkedLists.NumaLinkedList.Perform | Output/Exprs/include/LinkedList.hpp:231-369 | every operation matches its sequence operation and outcome |
| NumaLinkedLists.NumaLinkedList.Run | Output/Exprs/include/LinkedList.hpp:214-369 | over every operation sequence, up to and including the first crash, the outcomes and contents are those of the sequence operations, with all nodes on NUMA node N |
| NumaLinkedLists.RunBoth | Output/Exprs/include/LinkedList.hpp:214-374 | over every operation sequence an object of the generated class gives the outcomes and contents of one of the original class, up to and including the first crash, with all its nodes on its NUMA node |
| TransactionEngine.ChooseYieldsJobs | Exprs/Examples/TestSuite.cpp:890-1025 | each draw of random numbers gives a job on existing, distinct trees, or is skipped exactly when a move within one pool draws the same tree twice |
| TransactionEngine.EveryJobIsDrawn | Exprs/Examples/TestSuite.cpp:890-1025 | every lookup and every move between distinct trees is the outcome of some draw of some thread |
| TransactionEngine.LocksInRankOrder | Exprs/Examples/TestSuite.cpp:911-961 | every job takes its one or two mutexes in strictly increasing rank, pool before index |
| TransactionInvariants.OwnershipPreserved | Exprs/Examples/TestSuite.cpp:890-1025 | every step keeps: a mutex is recorded as owned by exactly the thread whose phase holds it |
| TransactionInvariants.ValuesLastAcquire | Exprs/Examples/TestSuite.cpp:911-961 | taking the last mutex commits the job: the trees ahead of it are those of the serial run |
| TransactionInvariants.ValuesWork | Exprs/Examples/TestSuite.cpp:914-915 | a tree operation brings its trees to the values of the serial run and disturbs no other |
| TransactionInvariants.AnswersWork | Exprs/Examples/TestSuite.cpp:897-915 | a recorded level is that of the serial run |
| TransactionInvariants.InvPreserved | Exprs/Examples/TestSuite.cpp:890-1027 | every step keeps the whole invariant: mutex ownership, serial values and answers, program order, ordered trees, arrived keys |
| TransactionInvariants.InvStart | Exprs/Examples/TestSuite.cpp:890-1027 | an initialised forest with idle threads satisfies the invariant |
| TransactionInvariants.InvAlongRun | Exprs/Examples/TestSuite.cpp:890-1027 | the invariant holds in every reachable state |
| TransactionTheorems.AloneApplies | Exprs/Examples/TestSuite.cpp:890-1025 | a job run without interruption applies its remove and insert, or lookup, to the forest and frees its mutexes |
| TransactionTheorems.SerialTraceRuns | Exprs/Examples/TestSuite.cpp:890-1027 | running the jobs of any log one after the other is a run of the engine and ends in the serial state |
| TransactionTheorems.RestIsSerial | Exprs/Examples/TestSuite.cpp:890-1027 | a reachable state at rest is the serial state of its log in every component |
| TransactionTheorems.Serializable | Exprs/Examples/TestSuite.cpp:890-1027 | for any number of threads and any interleaving, the final forests, levels and histories are those of the same jobs run one at a time in the order of their last mutex acquisition |
| TransactionEffects.AloneDoes | Exprs/Examples/TestSuite.cpp:890-1025 | a lookup run alone changes no tree; a move empties its source if the key is at the root there and else leaves it alone, adds the key to its destination at the end of its search path, and touches no other tree; the level recorded is the number of turns |
| TransactionEffects.SerialStepDoes | Exprs/Examples/TestSuite.cpp:890-1025 | each step of the serial run does that |
| TransactionEffects.SerializableByEffects | Exprs/Examples/TestSuite.cpp:890-1027 | for any interleaving that comes to rest, the forests lead from the first to the last by these effects of the jobs, one at a time, in the order of their last mutex acquisition, with the levels recorded and every thread's order kept |
| TransactionEffects.IterationDoes | Exprs/Examples/TestSuite.cpp:890-1025 | per draw: which pool a thread looks a key up in, and, for each residue of the transaction draw by 4, which tree loses the key and which gains it |
| TransactionTheorems.FreeTreesAreSerial | Exprs/Examples/TestSuite.cpp:890-1027 | at any moment, a tree whose mutex is free is that of the serial run of the jobs committed so far, and so is every recorded level |
| TransactionTheorems.ForestStaysOrdered | Exprs/Examples/TestSuite.cpp:890-1027 | at any moment every tree is ordered, duplicate-free and within the keyspace, and a moved key is in its destination until the destination's mutex is released |
| TransactionTheorems.OwnerIsHigher | Exprs/Examples/TestSuite.cpp:911-961 | a thread that holds a mutex waits, if at all, for one of higher rank |
| TransactionTheorems.SomeoneCanStep | Exprs/Examples/TestSuite.cpp:911-961 | while a thread is in flight some thread in flight can step |
| TransactionTheorems.NoDeadlock | Exprs/Examples/TestSuite.cpp:890-1025 | no reachable state with a job in flight is stuck |
| TransactionTheorems.StepCounts | Exprs/Examples/TestSuite.cpp:890-1025 | every step that starts no job lowers the measure by exactly one |
| TransactionTheorems.BoundedCompletion | Exprs/Examples/TestSuite.cpp:890-1025 | without new jobs a run has at most the measure's number of steps, and exactly that number if and only if it has come to rest |
| TransactionTheorems.CanComplete | Exprs/Examples/TestSuite.cpp:890-1025 | from every reachable state the jobs in flight can be completed |
| HarnessTheorems.BarrierPreserved | Exprs/Examples/TestSuite.cpp:873 | every event keeps the barrier's count of waiting threads and each thread's generation consistent |
| HarnessTheorems.MergerPreserved | Exprs/Examples/TestSuite.cpp:1037-1052 | at most one thread is inside the merge, the one that holds the global mutex |
| HarnessTheorems.ConservedPreserved | Exprs/Examples/TestSuite.cpp:1037-1052 | at every event each global counter is its starting value plus what has been merged into it, although load and store are separate steps |
| HarnessTheorems.OpsPreserved | Exprs/Examples/TestSuite.cpp:1028-1034 | every thread's operation count is its start value plus the jobs it has completed |
| HarnessTheorems.WholePreserved | Exprs/Examples/TestSuite.cpp:864-1055 | every event keeps the invariant of the whole program |
| HarnessTheorems.BarriersSeparate | Exprs/Examples/TestSuite.cpp:873-1054 | no thread works before all have arrived, and none is past the final barrier before all have merged |
| HarnessTheorems.CountersConserved | Exprs/Examples/TestSuite.cpp:1037-1054 | once a thread is past the final barrier, `globalOps0` is its starting value plus the matching counters of the threads with node argument 0, and `globalOps1` plus those of the others |
| HarnessTheorems.CopiesConserved | Exprs/Examples/TestSuite.cpp:1037-1054 | then `ops0` is the last counter of `globalOps0`, a sum over the threads of node 0, if there is one, and `ops1` that of `globalOps1`, over the others |
| HarnessTheorems.LookupsStayHome | Exprs/Examples/TestSuite.cpp:895-971 | in every run, threads of node 0 look keys up in the first pool only, the others in the second |
| HarnessTheorems.HalvesAreMerged | Exprs/Examples/main.cpp:152-177 | the first half of the threads has node 0 and the second node 1, or the reverse in the third configuration, so each global counter collects one half |
| HarnessTheorems.HarnessSerializable | Exprs/Examples/TestSuite.cpp:864-1055 | when all threads have exited, forests, levels and histories are those of a serial run, and every thread has counted exactly its jobs |
| HarnessTheorems.EventCounts | Exprs/Examples/TestSuite.cpp:864-1055 | every event but a draw brings the program exactly one event nearer to its end |
| HarnessTheorems.SomethingPossible | Exprs/Examples/TestSuite.cpp:864-1055 | while a thread has not exited, some event other than a draw is possible, if the barrier counts the launched threads |
| HarnessTheorems.BoundedShutdown | Exprs/Examples/TestSuite.cpp:864-1055 | without further draws no run exceeds the events to go, and it reaches them if and only if all threads have exited |
| HarnessTheorems.CanShutDown | Exprs/Examples/TestSuite.cpp:864-1055 | every run of a correctly counted launch can be continued until all threads have exited |
| HarnessTheorems.TooFewThreadsNeverStart | Exprs/Examples/TestSuite.cpp:103-104 | with fewer threads than the barrier counts nobody passes the start barrier |
| HarnessTheorems.LaunchFinishesIffEvenOrOne | Exprs/Examples/main.cpp:152-177 | twice half of `num_threads` are launched, so the program can finish if and only if `num_threads` is even or 1 |
| HarnessClocks.LogsFollowTheClock | Exprs/Examples/TestSuite.cpp:881-1034 | at every moment of every interleaving under any monotone clocks, each thread's vector holds the log of the measured loop on its own readings, followed by zeros |
| HarnessClocks.NoOverrun | Exprs/Examples/TestSuite.cpp:1028-1034 | if the interval divides the duration, every log entry that a clock asks for has a slot |
| HarnessClocks.Overruns | Exprs/Examples/TestSuite.cpp:1028-1034 | otherwise a given run of one thread asks for an entry outside its vector |
| HarnessClocks.NoOverrunIffDivides | Exprs/Examples/TestSuite.cpp:881-1034 | over all setups, clocks and interleavings no log entry is asked for outside a vector if and only if the interval divides the duration |
| ForestInit.InvPreserved | Exprs/Examples/TestSuite.cpp:391-509 | every step of either thread keeps the barrier phases, the vector sizes and the part of its pool built so far |
| ForestInit.NoRace | Exprs/Examples/TestSuite.cpp:391-509 | in every interleaving no step writes outside a vector or through a null tree, and the next steps of the two threads never touch the same vector |
| ForestInit.InitEstablishesForest | Exprs/Examples/TestSuite.cpp:391-509 | past the third barrier every tree and main mutex of both pools exists, and the forest is one the transaction engine may start from |
| ForestInit.NodeOneReadersStayNull | Exprs/Examples/TestSuite.cpp:480-488 | `BST_reader_lk1` has its size and only null entries |
| ForestContents.TreesHoldTheirDraws | Exprs/Examples/TestSuite.cpp:443-502 | past the third barrier every tree is grown from the keys drawn for it in its rounds, keyspace/2 of them within the keyspace, and holds exactly these |
| ForestContents.NodeZeroReadersExist | Exprs/Examples/TestSuite.cpp:431-441 | past the third barrier `BST_reader_lk0` has a mutex for every tree |
| ForestContents.NodeOneReadersAreKept | Exprs/Examples/TestSuite.cpp:397-403 | `BST_reader_lk1` keeps what an earlier initialisation left in it, cut or padded with null to its new size |
| IntervalLog.EnoughSlots | Exprs/Examples/TestSuite.cpp:881-890 | if the interval divides the duration, no monotone clock calls for more log entries than there are slots |
| IntervalLog.SafeIffDivides | Exprs/Examples/TestSuite.cpp:881-890 | the log stays within its vector for all monotone clocks if and only if the interval divides the duration |
| IntervalLog.LogGrows | Exprs/Examples/TestSuite.cpp:1028-1034 | the entries increase strictly, from above the start value to at most the final count |
| IntervalLog.RunLoop | Exprs/Examples/TestSuite.cpp:881-1034 | the loop writes exactly the entries called for, in order, counts the iterations that do work, leaves the other slots 0, and leaves the vector exactly when too many entries are called for |
| Memspaces.SoundReplace | unified-memory-framework/src/memspace.c:338-428 | giving a memspace a new node array keeps the ledger: each live target is the user's or owned by one memspace |
| Memspaces.MatchItself | unified-memory-framework/src/memtarget.c:128-156 | within a memspace the first target equal to a given one is that one |
| Memspaces.Library.Allocate | unified-memory-framework/src/base_alloc/base_alloc_global.c:151-156 | an allocation may fail, and one of size 0 always does |
| Memspaces.Library.TargetClone | unified-memory-framework/src/memtarget.c:56-77 | success adds one new target of equal value; failure adds none |
| Memspaces.Library.TargetDestroy | unified-memory-framework/src/memtarget.c:50-54 | exactly the target goes; it must be live, so none is destroyed twice |
| Memspaces.Library.Compare | unified-memory-framework/src/memtarget.c:128-156 | 0 if and only if equal, negative if and only if the types differ |
| Memspaces.Library.New | unified-memory-framework/src/memspace.c:114-131 | a new memspace without targets, or no change |
| Memspaces.Library.Destroy | unified-memory-framework/src/memspace.c:133-141 | exactly the memspace and its targets go |
| Memspaces.Library.CloneAll | unified-memory-framework/src/memspace.c:164-183 | all targets are cloned in order, or none remains |
| Memspaces.Library.CleanUp | unified-memory-framework/src/memspace.c:176-183 | the cleanup restores the targets of before |
| Memspaces.Library.Clone | unified-memory-framework/src/memspace.c:143-184 | a new memspace with equal targets in order, or no change; never for an empty memspace |
| Memspaces.Library.Vet | unified-memory-framework/src/memspace.c:344-360 | a target is refused if and only if it equals one already there or is of another type |
| Memspaces.Library.Find | unified-memory-framework/src/memspace.c:391-404 | finds the first target that compares equal |
| Memspaces.Library.Add | unified-memory-framework/src/memspace.c:338-383 | a clone goes to the end if and only if the target is acceptable; otherwise, and on any failure, nothing changes |
| Memspaces.Library.Remove | unified-memory-framework/src/memspace.c:385-428 | the first equal target is removed and destroyed; on any failure nothing changes; the last target cannot be removed |
| MemspaceFilters.Call | unified-memory-framework/src/memspace.c:512-547 | the user callback's own answer; the predefined ones answer positively exactly for a listed id, or for at least the capacity, and turn failed queries into negative codes |
| MemspaceFilters.Collect | unified-memory-framework/src/memspace.c:448-456 | the dropped targets in order, within a buffer as long as the memspace, or the first negative verdict |
| MemspaceFilters.RemoveNext | unified-memory-framework/src/memspace.c:458-464 | removal by comparison removes the very target passed and no other |
| MemspaceFilters.ReAdd | unified-memory-framework/src/memspace.c:469-478 | putting targets back uses a destroyed one, unless a query fails before |
| MemspaceFilters.RemoveAll | unified-memory-framework/src/memspace.c:458-478 | a prefix of the dropped targets is removed; all of them if and only if the call succeeds, and then some target remains |
| MemspaceFilters.FilterHelper | unified-memory-framework/src/memspace.c:432-482 | success leaves exactly the targets with positive verdicts, at least one, in order; a failing callback or first removal loses nothing; without failures the outcome is determined by the verdicts |
| MemspaceFilters.NothingLost | unified-memory-framework/src/memspace.c:432-482 | a filter call that lost no target changed nothing |
| MemspaceFilters.NeverEmptied | unified-memory-framework/src/memspace.c:432-482 | with or without failures, a filter call leaves a target in every memspace that had one, and it never succeeds if it drops all |
| MemspaceFilters.UserFilter | unified-memory-framework/src/memspace.c:484-497 | success leaves exactly the targets with a positive answer, in order, and destroys the others; without failures it succeeds if and only if no answer is negative and one is positive; a failing callback is reported as USER_SPECIFIC |
| MemspaceFilters.FilterById | unified-memory-framework/src/memspace.c:549-560 | success leaves exactly the targets with a listed id, in order, and destroys the others; without failures it succeeds if and only if some listed id occurs; an empty list is refused |
| MemspaceFilters.FilterByCapacity | unified-memory-framework/src/memspace.c:562-578 | success leaves exactly the targets of at least the capacity, in order, and destroys the others; without failures it succeeds if and only if there is one; a negative capacity is refused |
| MemspaceFilters.CapacityFiltersCompose | unified-memory-framework/src/memspace.c:533-578 | filtering by two capacities in turn succeeds exactly when filtering by the larger does, with the same targets left |
| MemspaceFilters.TwoSuccesses | unified-memory-framework/src/memspace.c:533-578 | two capacity filters in turn that succeed, on any library, are one by the larger capacity |
| MemspaceFilters.FilterByCapacities | unified-memory-framework/src/memspace.c:533-578 | two calls on one library: if both succeed, memspaces and targets are those of the larger capacity; without failures both succeed exactly when filtering by the larger capacity does |
| MemspaceOrders.DistinctPicks | unified-memory-framework/src/memspace.c:253-277 | the distinct picks in order of first occurrence, never overrunning the buffer, or the first failure |
| NodeLists.FirstOccurrencesOrder | unified-memory-framework/src/memspace.c:263-275 | a pick listed earlier occurs before every occurrence of one listed later |
| NodeLists.FirstOccurrencesFacts | unified-memory-framework/src/memspace.c:263-275 | every pick is listed, and listed once |
| MemspaceOrders.Filter | unified-memory-framework/src/memspace.c:240-320 | a new memspace with clones of the distinct picks in order, or no change; the source never changes |
| MemspaceOrders.SortedNodes | unified-memory-framework/src/memspace.c:227-233 | sorting the entries sorts the nodes: each once, larger properties first |
| MemspaceOrders.SortDesc | unified-memory-framework/src/memspace.c:204-238 | the same targets by descending property; on any failure no change |
| MemspaceSessions.LedgerOwnsOnce | unified-memory-framework/src/memspace.c:114-184 | every live target is the user's or in exactly one memspace, and no target of the user is in one |
| MemspaceSessions.Perform | unified-memory-framework/src/memspace.c:114-578 | every call has exactly its effect on targets and memspaces and its outcome, yields a new handle exactly where it succeeds in making something, and books the user's targets |
| MemspaceSessions.TearDown | unified-memory-framework/src/memspace.c:133-141 | destroying all memspaces leaves exactly the user's targets, unchanged |
| MemspaceSessions.RunScript | unified-memory-framework/src/memspace.c:114-578 | the calls of any script have their effects one after the other, with every live target owned once after each, until all are made or one is undefined |
| MemspaceSessions.OnlyFiltersUndefined | unified-memory-framework/src/memspace.c:432-482 | only an in-place filter can end in the use of a destroyed target |
| MemspaceSessions.Session | unified-memory-framework/src/memspace.c:114-578 | after any script with any failures, destroying all memspaces leaves exactly the targets that its creations yielded and its destructions did not take, with their values; without in-place filters every script is defined |
| GlobMatcher.ShouldFilter | unified-memory-framework/benchmark/ubench.h:449-512 | both loops end, and a name is let through exactly if the literals of the filter describe it, which for any number of wildcards is said over characters; a null filter lets everything through |
| GlobMatcher.Sound | unified-memory-framework/benchmark/ubench.h:449-512 | a name let through belongs to the filter's glob language |
| GlobMatcher.InnerSound | unified-memory-framework/benchmark/ubench.h:456-490 | what the inner loop accepts, after any number of resets, matches from the stored wildcard on |
| GlobMatcher.ExactWithoutStar | unified-memory-framework/benchmark/ubench.h:449-512 | a filter without wildcard lets through exactly its own text |
| GlobMatcher.ExactPrefixStar | unified-memory-framework/benchmark/ubench.h:449-512 | a literal with one trailing wildcard lets through exactly the strictly longer names with that prefix |
| GlobMatcher.InnerAttempts | unified-memory-framework/benchmark/ubench.h:456-490 | the inner loop accepts exactly if a scan by failed attempts, each ended by one more character, reaches its segment and the outer loop accepts behind it |
| GlobMatcher.ExactInnerStar | unified-memory-framework/benchmark/ubench.h:449-512 | literal, wildcard, literal lets through exactly the names that start with the first and, after it, reach the second by failed attempts |
| GlobMatcher.ExactBetweenStars | unified-memory-framework/benchmark/ubench.h:449-512 | prefix, wildcard, literal, wildcard lets through exactly the longer names in which the literal is reached, behind the prefix, before the end |
| GlobMatcher.LongerNamesPass | unified-memory-framework/benchmark/ubench.h:449-512 | so it lets through every name that goes on with the literal and is longer |
| GlobMatcher.ExactSegments | unified-memory-framework/benchmark/ubench.h:449-512 | with any number of wildcards, exactly the names that start with the first literal, are longer, and in which each segment is reached in turn by a scan from where the one before ended, the last at the very end |
| GlobMatcher.EveryFilter | unified-memory-framework/benchmark/ubench.h:449-512 | every filter is of that form, and so has its accepted names described |
| GlobMatcher.StarStandsForAny | unified-memory-framework/benchmark/ubench.h:449-512 | in the glob language a wildcard stands for any string |
| GlobMatcher.DecidesLanguageIffStarFree | unified-memory-framework/benchmark/ubench.h:449-512 | the matcher decides the filter's language for all names if and only if the filter has no wildcard |
| Sampling.RunState.DoBenchmark | unified-memory-framework/benchmark/ubench.h:362-366 | one stamp is taken into the next slot; the loop goes on while fewer than `size` had been taken |
| Sampling.RunState.RunBenchmark | unified-memory-framework/benchmark/ubench.h:362-368 | the body runs exactly `size` times, and all stamps land inside the buffer, in order |
| Sampling.RunState.TakeDifferences | unified-memory-framework/benchmark/ubench.h:692-695 | the in-place pass leaves the differences of the original stamps |
| Sampling.Telescope | unified-memory-framework/benchmark/ubench.h:692-699 | the run times add up to last minus first stamp |
| Sampling.RunState.TakeStamps | unified-memory-framework/benchmark/ubench.h:688-690 | the stamps of a round are the clock readings of its bodies, in order |
| Sampling.Quotient | unified-memory-framework/benchmark/ubench.h:701 | the division misses by less than the divisor and never overshoots, for either sign |
| Sampling.RunState.Average | unified-memory-framework/benchmark/ubench.h:692-701 | the average of the differences is last minus first stamp over the iterations, rounded towards zero |
| Sampling.RunState.Round | unified-memory-framework/benchmark/ubench.h:684-701 | the average is last minus first stamp over the iterations, rounded towards zero |
| Sampling.NextScaled | unified-memory-framework/benchmark/ubench.h:684-686 | scaling round by round gives the base count times a factorial, capped by the buffer |
| Sampling.BaseIterations | unified-memory-framework/benchmark/ubench.h:673-676 | the base count is the largest of 10 to 500 with which the measured time fits into 100 ms, or 10 if none does |
| Sampling.Measure | unified-memory-framework/benchmark/ubench.h:640-718 | up to 100 rounds, as long as asked for; each runs the scaled number of bodies within the buffer and averages its own stamps |

## Left out

- BinarySearchTrees.BinarySearchTree.DeleteHelper: nothing is claimed after the two-child branch (Exprs/include/BinarySearch.hpp:409-426) has written through the node it deleted; `Remove` is proved never to reach it.
- NumaBinarySearchTrees.NumaBinarySearchTree.DeleteHelper: the same holds of the generated two-child branch.
- NumaNodes: the casts between generated and original node pointers rest on their layouts, which are not modelled. The generator emits the same text for N = 0 and N = 1; here N is a parameter.
- TransactionEngine: a tree operation is one step; it runs under the tree's mutex, which no other thread holds meanwhile. A draw is an arbitrary choice within the ranges of the distributions.
- TransactionEngine.ChooseYieldsJobs: the random generators are not modelled, so nothing is said about how often a job is drawn.
- HarnessTheorems.CopiesConserved: without counters, the source reads before the vector; here the copies then stay as they are.
- HarnessTheorems.OpsPreserved: a log write outside the vector is not an event of the harness; `HarnessClocks.NoOverrunIffDivides` says when no clock asks for one.
- HarnessTheorems.LaunchFinishesIffEvenOrOne: the threads' placement on NUMA nodes, their creation and joining are left out.
- IntervalLog.RunLoop: an interval of 0 divides by zero in the source and is outside the precondition, as is a negative duration.
- LinkedLists.LinkedList.InsertAtIndex: integers are unbounded, so the overflow of `index + 1` at the largest int is not modelled.
- Memspaces.Library.TargetDestroy: the ledger is about memory targets; node arrays, temporary buffers and the memspace structs are not tracked.
- MemspaceFilters.ReAdd: the re-add path is delimited and not followed; from the first access to a destroyed target on nothing is claimed.
- MemspaceOrders.Qsort: stands for `qsort`, of which only an ordered permutation is used.
- MemspaceSessions.Perform: a command that names no live handle is given the null handle; callbacks do not call back into the library.
- Sampling.Measure: the floating-point deviation and confidence are the arbitrary verdict `again`; 64-bit overflow of sums is not modelled.
- Deletion of tree nodes: `remove` frees at most one node and drops the rest; the model keeps no ledger of tree nodes.
- Integer widths: levels, lengths, counts and capacities are unbounded, since none of the results depends on wrap-around.
- `numa_BST_single_init`, the stack and list tests of Exprs/Examples/TestSuite.cpp and their single mutexes, `singleThreaded...` variants and printing: they repeat simpler forms of what is modelled.
- The duplicate-keeping tree of STExprs, the pool and provider lifecycle of memory_pool.c, the option product of Exprs/meta.py and the allocate-then-free loop of ubench.c: single-path code that would only add easy members.
- NUMA system calls, jemalloc, hwloc, thread pinning, clocks and the memory tracker: environment, represented by arbitrary choices where a result depends on it.
