# Verified models of the Ophidia server core

This project models the parts of the Ophidia analytics server that keep state step by step, and proves what
they promise together:

* **Selection blocks of a workflow** (`Selection`, `SelectionPaths`, `SelectionChain`): the recursive walk that
  marks a skipped branch in the task graph, the operators `oph_if`, `oph_elseif`, `oph_else`, and whole chains.
* **Loops of a workflow** (`Loops`, `LoopRuns`): the stack of open loops and the environment of variables, in
  every interleaving of loops and assignments.
* **Waiting tasks** (`Waiting`): the signed counter that tells sleeping threads which of them frees the workflow.
* **The job list and admission** (`JobSpec`, `JobList`, `Admission`, `Server`): a linked list with lazy expiry,
  the saved list, farm and queue limits, and runs of the server over it.
* **The hash table** (`Sequences`, `Chains`, `HashTable`): buckets and chains kept in agreement with a finite map.
* **The folder tree and filters** (`Folders`, `FolderPaths`, `Subfolders`, `Clauses`, `ClauseReader`, `Filters`,
  `Queries`):
  path resolution and printing, the session check, clauses in a bounded text and the rows they select.
* **Arguments and the retry limiter** (`ArgSort`, `ArgText`, `RetryLimiter`, `RetryRuns`), and **integer lists**
  (`Text`, `Ranges`, `Compression`).

Code that updates tasks, nodes, lists or buffers in place is modelled by classes and methods with loops; each
method is proved against a specification function or an invariant, and the lemmas are about those, for all
inputs, all runs or all reachable states. Where an operation fails to meet what one would expect of it, the code
is kept as it is, a concrete case is given and the exact condition is proved:

* a free slot of the farm is used exactly if no workflow that is still to be marked as queued holds it, and a
  workflow may stay queued with nothing started (`Admission.StartsTheOldest`, `Admission.SlotHeldUnmarked`,
  `Admission.LeftInTheQueue`);
* the retry limit holds exactly for the first 32767 attempts on an entry, because the counter is a short integer
  (`RetryRuns.AttemptsAreLimited`, `RetryRuns.LimitWraps`);
* more than one thread is told to free a workflow exactly when one of them comes to free it while another thread
  sleeps (`Waiting.ToldOnceIff`, `Waiting.ToldTwice`), and a freed workflow is slept on exactly when a thread falls
  asleep after the event that freed it (`Waiting.SleepsOnFreedIff`, `Waiting.SleepAfterFree`);
* the step of a compressed list is not written, so reading it gives the list back exactly if the step is 1 or no two
  neighbours differ by it (`Compression.CompressAndExpand`, `Compression.StepIsLost`);
* of a list of ranges with an empty piece the last ranges are not used: the array of OPH_FOR is filled, and the clause
  of a cube filter names every range, exactly if no piece is empty (`Ranges.FilledIff`, `Ranges.ArrayIsNotFilled`,
  `Filters.NamesAllIff`, `Filters.IdIsDropped`);
* the text of a query holds its whole clause exactly if there is room for it behind the rest of the query
  (`Queries.RunFilters`);
* the printed path of a folder leads back to it exactly if it is not the root and the path fits its buffer
  (`FolderPaths.PrintedPathLeadsBack`), and an output path may be too long for its buffer by one character
  (`FolderPaths.OutputBound`, `FolderPaths.LongestOutput`);
* an argument list survives printing and parsing exactly if its keys and values are well-formed and not too long
  (`ArgText.RoundTrip`);
* a link is written to a released node of the job list exactly if the list is empty and the operation that emptied it
  took out two nodes or more (`JobList.JobList.Insert`, `JobSpec.StaleTailIff`, `Server.ReleasedNodeIsWritten`).

## Model

| member | source | states |
|---|---|---|
| `Selection.Workflow.GParent` | src/oph_workflow/oph_workflow_setup.c:342-355 | the loop over parent links gives -2 for a task without parent, and otherwise a task without parent that parent links lead to |
| `Selection.Workflow.SetStatusOfBlock` | src/oph_flow_control_operators.c:480-548 | the recursive walk terminates on every acyclic graph, follows exactly the edges given by `Followed`, leaves every task as `TaskAfter` says for them, keeps the residual counter equal to the number of tasks below COMPLETED, and never takes the "cannot be reduced" error |
| `Selection.Workflow.Visit` | src/oph_flow_control_operators.c:488-544 | the three cases of one followed edge: a child of the skipped branch, the endif of the chain, or a task of the branch |
| `Selection.Workflow.MeetChild` | src/oph_flow_control_operators.c:492-517 | the next branch takes the mark; an endif with several branches forgets the walked task, the only endif of the branch waits for the branch instead |
| `Selection.Workflow.MeetClosing` | src/oph_flow_control_operators.c:520-531 | the endif of the chain replaces the walked task by the root in its dependencies and waits for one task less if it was among them |
| `Selection.Workflow.Mark` | src/oph_flow_control_operators.c:533-540 | a task reached again is not counted twice, and the error for an exhausted counter is unreachable |
| `Selection.EndIfMet` | src/oph_flow_control_operators.c:497-531 | one more edge into an endif: its residual dependencies count distinct walked tasks, however many paths lead to each |
| `SelectionPaths.EdgesFromWalked` | src/oph_flow_control_operators.c:487-545 | the edges followed are exactly those that leave a task reachable from the branch without passing a stop |
| `SelectionPaths.MarksExactlyTheBranch` | src/oph_flow_control_operators.c:480-548 | the new status is given to exactly the tasks reachable from the branch without passing through a child branch or the endif of the chain |
| `SelectionPaths.EndIfForgetsTheBranch` | src/oph_flow_control_operators.c:497-507 | the residual dependencies of the endif drop by exactly the number of distinct walked tasks it depended on, and none of its dependencies names a walked task afterwards |
| `SelectionPaths.OnlyEndIfWaitsForBranch` | src/oph_flow_control_operators.c:508-516 | the only endif of a branch waits for the branch in place of every walked task, and for as many dependencies as before |
| `SelectionPaths.ExitOutputIs` | src/oph_flow_control_operators.c:514-515 | the exit output is reset exactly if an `if` that does not forward it is skipped and its only endif is met |
| `Selection.Workflow.Enter` | src/oph_flow_control_operators.c:557-633 | a condition is evaluated only if the branch is not skipped; a failing one marks the branch, an invalid one is an error |
| `Selection.Workflow.RunIf` | src/oph_flow_control_operators.c:551-659 | the whole effect of `oph_if` and `oph_elseif` on tasks, counter and exit output, for every outcome of the condition |
| `Selection.Workflow.RunElse` | src/oph_flow_control_operators.c:662-675 | a skipped `else` marks its body, another one changes nothing |
| `SelectionChain.RunBranch` | src/oph_flow_control_operators.c:551-675 | after each branch of a chain, in order, the tasks are marked as the truth values so far demand and the next branch knows whether to skip |
| `SelectionChain.RunChain` | src/oph_flow_control_operators.c:551-675 | for chains of any length and any truth values: marked UNSELECTED are exactly the bodies of all branches other than the first whose condition holds (or the `else`), no condition after it is evaluated, and the counter stays right |
| `SelectionChain.SelectedBodyStays` | src/oph_flow_control_operators.c:551-675 | a task of the selected body keeps its status if and only if it is in the body of no other branch |
| `SelectionChain.RootIsIf` | src/oph_workflow/oph_workflow_setup.c:342-355 | in a chain whose `if` has no parent, the root found for every later branch is that `if` |
| `SelectionChain.EndIfStopsAll` | src/oph_flow_control_operators.c:518-531 | the endif of the chain is a stop of the walk of every branch, and never one of its walked tasks |
| `Loops.CheckName` | src/oph_flow_control_operators.c:1709-1721 | a loop variable is refused exactly if its first character that is not allowed is a separator |
| `LoopRuns.RefusedNames` | src/oph_flow_control_operators.c:1709-1721 | the names that are refused, character by character |
| `Loops.Workflow.For` | src/oph_flow_control_operators.c:1722-1865 | opening a loop: errors for a bad name, different sizes or a bound variable, the size variable is added only if absent, and a parallel loop changes nothing |
| `LoopRuns.OpenRefused` | src/oph_flow_control_operators.c:1722-1756 | a loop is refused exactly for a missing or bad name or, if it is not parallel, for lists of different sizes or a bound name; a parallel loop changes nothing |
| `LoopRuns.OpenBinds` | src/oph_flow_control_operators.c:1756-1865 | a loop that is opened binds its variable to the first text and the first integer of its lists, and its name followed by _size, unless bound, to the number of texts, or of integers, or one |
| `Loops.Workflow.Endfor` | src/oph_flow_control_operators.c:1893-2002 | the search in the stack finds the record of the parent; it is advanced and its variable rebound, or the record is taken out and the variable unbound |
| `LoopRuns.CloseWithoutRestart` | src/oph_flow_control_operators.c:1900-2002 | an end of a loop that is not to be restarted takes the record out and leaves the next value bound |
| `Loops.FrameAt` | src/oph_workflow/oph_workflow_structs.c:461-473 | replacing or unlinking the record found by the search is replacing or removing the first record of that task |
| `LoopRuns.StepKeeps` | src/oph_flow_control_operators.c:1756-2002 | in every step open loops have different tasks and variables, all variables are bound, and indexes stay in range |
| `LoopRuns.OtherStep` | src/oph_flow_control_operators.c:1756-2002 | a step of another task leaves the record of a loop alone, and its variable unless it assigns it |
| `LoopRuns.OwnStep` | src/oph_flow_control_operators.c:1900-2000 | the end of an open loop never fails: it goes on with the next value, or closes the loop |
| `LoopRuns.LoopRuns` | src/oph_flow_control_operators.c:1893-2002 | whatever happens in between, each end of a loop finds the next value and the last one closes it |
| `LoopRuns.ValueStays` | src/oph_flow_control_operators.c:1756-2002 | between two ends of a loop its variable keeps its value unless it is set |
| `LoopRuns.LoopRunsCountTimes` | src/oph_flow_control_operators.c:1756-2002 | every loop that is opened runs its body exactly as often as it has values, with its variable bound to them in order, and is then closed |
| `LoopRuns.LoopBindsItsLists` | src/oph_flow_control_operators.c:1808-1816 | in its k-th run a loop finds the k-th text and the k-th integer of its lists in its variable, without integers the number of the run and without texts the integer as text; it runs once for each text, or integer, or once |
| `LoopRuns.CompletedLoopLeavesItsSize` | src/oph_flow_control_operators.c:1756-2002 | erasing a completed loop from a run changes no reply of the others, nor the stack, nor any variable but its size |
| `Waiting.Workflow.FallAsleep` | src/oph_flow_control_operators.c:270-273 | a sleeper moves the counter away from zero |
| `Waiting.Workflow.WakeUp` | src/oph_flow_control_operators.c:279-292 | a thread that wakes up moves the counter back, is told to free the workflow if it reaches zero from below, and otherwise may sleep again in the same critical section |
| `Waiting.Workflow.Free` | src/oph_workflow/oph_workflow_structs.c:38-46 | a workflow with waiting threads is not freed, and its counter becomes negative |
| `Waiting.StepKeeps` | src/oph_flow_control_operators.c:267-294 | every step keeps the counter at the number of sleepers, and a released workflow in exactly one of three phases |
| `Waiting.FreedExactlyOnce` | src/oph_flow_control_operators.c:267-294 | in every interleaving the counter is the number of sleepers, and the workflow is freed at most once, exactly by an event that asks for it when no thread sleeps; it is freed when it was released and nobody sleeps or is about to free it |
| `Waiting.SleepsOnFreedIff` | src/oph_flow_control_operators.c:267-294 | a thread sleeps on a freed workflow if and only if a thread falls asleep after the event that freed it |
| `Waiting.SleepAfterFree` | src/oph_flow_control_operators.c:267-294 | a run in which a thread that woke up before the release falls asleep again on the freed workflow |
| `Waiting.LastSleeperIsTold` | src/oph_flow_control_operators.c:284-291 | a thread is told to free the workflow if and only if it is the last sleeper of a released one that is not freed and that no other thread is about to free |
| `Waiting.ToldOnceIff` | src/oph_flow_control_operators.c:438-439 | when all is over, at most one thread was told to free the workflow if and only if no thread that was told so came to free it while another one slept |
| `Waiting.ToldTwice` | src/oph_flow_control_operators.c:438-439 | a run in which two threads are told so, because one falls asleep after the first was told; the workflow is freed once |
| `Waiting.ExactlyOneIsTold` | src/oph_flow_control_operators.c:267-294 | if all threads fell asleep before the release, exactly one is told, after all have woken up; without sleepers the release frees the workflow |
| `JobSpec.SweepIsFilter` | src/oph_job_list.c:66-90 | in a list sorted by time, dropping the expired prefix drops exactly the expired entries |
| `JobList.JobList.constructor` | src/oph_job_list.c:48-58 | a new list is empty |
| `JobList.JobList.FindJob` | src/oph_job_list.c:60-96 | a lookup removes exactly the expired prefix, tells synchronous workflows that they expired, and returns the node of the job with the predecessor that its removal needs |
| `JobList.JobList.Insert` | src/oph_job_list.c:98-121 | the four outcomes of an insertion; an accepted workflow is the last of the list; the link from the tail is written to a released node if and only if the lookup emptied a list of two nodes or more, or the list was empty and had a tail |
| `JobList.JobList.Unlink` | src/oph_job_list.c:123-138 | taking a node out keeps the links, the tail, the order and the counter right |
| `JobList.JobList.Save` | src/oph_job_list.c:140-156 | a finished workflow goes to the front of the saved list, or is released |
| `JobList.JobList.Delete` | src/oph_job_list.c:163-168 | the entry disappears from the list, and all others stay in order |
| `JobList.JobList.Purge` | src/oph_job_list.c:175-197 | a saved workflow stays if and only if the hysteresis is not zero and it was saved no earlier than that many seconds ago; those that stay keep their order |
| `JobSpec.StaleTailIff` | src/oph_job_list.c:66-138 | in every run, by the sizes after each operation, an empty list has a tail if and only if the operation that emptied it took out two nodes or more |
| `JobList.JobList.CountRunning` | src/oph_job_list.c:399-425 | the sweep of the queue search counts the workflows with a status, and leaves the tail at the last node but one if it empties a list of two nodes or more |
| `JobList.JobList.FindUnstarted` | src/oph_job_list.c:394-433 | the oldest queued workflow if a slot of the farm is free, and null exactly if there is none or no slot |
| `JobList.JobList.NewJobId` | src/oph_job_list.c:435-446 | the new id is the least one that is positive and above all listed ids |
| `JobSpec.NextIs` | src/oph_job_list.c:426-432 | there is one answer to what the search returns: the first queued entry if a slot is free and something is queued, and none otherwise |
| `JobSpec.RunningBound` | src/oph_job_list.c:428-428 | fewer workflows are running than listed if and only if something is queued |
| `Server.WfListAppend` | src/oph_memory_job.c:26-54 | appending a workflow is the submission step of the admission runs |
| `Server.WfListDrop` | src/oph_memory_job.c:56-72 | dropping a workflow is the finishing step, and does nothing to the list but the sweep if it is not there |
| `JobList.JobList.DropJob` | src/oph_memory_job.c:56-72 | the workflow dropped is saved in front of the others if it is to be kept; the tail moves back by one node exactly if the last node was taken out, to a released node if the one before it was |
| `Server.StartNext` | src/oph_workflow_engine.c:6370-6377 | starting from the queue is the starting step: the oldest queued workflow gets a status before the lock is released |
| `Server.ReleasedNodeIsWritten` | src/oph_job_list.c:66-90 | a run of three insertions in which the link to the third workflow is written to the released node of the first |
| `Admission.StepKeeps` | src/oph_execute_main.c:6191-6203 | every step of the server keeps the list sorted with distinct ids, within the limits, and with a status for exactly the workflows that were started or are still to be marked as queued |
| `Admission.AdmissionIsBounded` | src/oph_job_list.c:98-121 | in every run the list never exceeds farm and queue together, and the started workflows never exceed the farm |
| `Admission.StartsTheOldest` | src/oph_job_list.c:394-433 | in every run the search finds a workflow if and only if something is queued and the started workflows and those still to be marked leave a slot of the farm free; what it finds is the oldest queued one |
| `Admission.FreeSlotIsUsed` | src/oph_job_list.c:394-433 | when no workflow is still to be marked, the search finds one if and only if fewer than the farm are started and something is queued |
| `Admission.SlotHeldUnmarked` | src/oph_execute_main.c:6194-6203 | a run in which the search finds nothing although a slot of the farm is free and something is queued, because the status of a third workflow is still to be changed |
| `Admission.LeftInTheQueue` | src/oph_workflow_engine.c:6370-6377 | a run in which the search after the only termination comes too early, and a workflow is left queued with nothing started |
| `HashTable.HashTable.constructor` | src/hashtbl.c:38-55 | a new table is the empty map |
| `HashTable.HashTable.Get` | src/hashtbl.c:165-177 | a lookup returns the data of the key in the map, or nothing |
| `HashTable.HashTable.InsertWithSize` | src/hashtbl.c:113-141 | an insertion fails exactly on a present key and then changes nothing; otherwise only that key is added |
| `HashTable.HashTable.Remove` | src/hashtbl.c:143-163 | a removal fails exactly on an absent key, and takes out only that key and only in its chain |
| `HashTable.HashTable.Resize` | src/hashtbl.c:179-204 | for every positive size the map is unchanged and all chains are valid for the new size, although nodes are removed while a chain is traversed |
| `HashTable.HashTable.Duplicate` | src/hashtbl.c:57-87 | the copy never fails, has the same map and shares no node with the original |
| `HashTable.HashTable.Next` | src/hashtbl.c:206-239 | without a key the first pair, with a present key the pair behind it in bucket order, with an absent one or at the end nothing |
| `HashTable.HashTable.Enumerate` | src/hashtbl.c:206-239 | feeding each key back gives every key of the map exactly once, with its own data |
| `HashTable.FlatHolds` | src/hashtbl.c:206-239 | the chains one after the other hold each key of the map once, whatever the hash function |
| `Folders.FailsIffClimbs` | src/oph_ophidiadb_fs_library.c:90-146 | resolving "." and ".." fails if and only if some first part of the path has more steps up than down |
| `Folders.ResolvedLeadsThere` | src/oph_ophidiadb_fs_library.c:90-224 | if the tree can be walked along a path with ".." going to the parent, the resolved components lead to the same folder |
| `Folders.WalkNames` | src/oph_ophidiadb_fs_library.c:192-224 | the names on the way to a folder lead to it |
| `Folders.TokensOfPath` | src/oph_ophidiadb_fs_library.c:65-73 | splitting a printed path gives its components |
| `FolderPaths.ResolveTokens` | src/oph_ophidiadb_fs_library.c:90-146 | the loop with a list and an index computes the stack of components, and fails for "." and ".." if no output is wanted |
| `FolderPaths.PathParsing` | src/oph_ophidiadb_fs_library.c:34-233 | the folder and the output path for every input, cut to the size of the buffer, and an error in all other cases |
| `FolderPaths.AbsolutePieces` | src/oph_ophidiadb_fs_library.c:54-60 | a path that starts with a slash stands for itself, and another one has the pieces of the current directory before its own |
| `FolderPaths.BuildPath` | src/oph_ophidiadb_fs_library.c:351-411 | the loop to the root prints the names from the root, each followed by a slash; cutting at each step to the size of the buffer is cutting the whole path |
| `FolderPaths.PrintedPathLeadsBack` | src/oph_ophidiadb_fs_library.c:351-411 | resolving the printed path of a folder gives the folder back if and only if it is not the root and its path, but for the last slash, fits in the buffer |
| `FolderPaths.ResolvedPathIsStable` | src/oph_ophidiadb_fs_library.c:148-163 | resolving an output path again, from any directory, gives the same path and folder, unless it is the root; the output path is never too long to be resolved |
| `FolderPaths.OutputLength` | src/oph_ophidiadb_fs_library.c:148-163 | the output path is at most one character longer than the path it was resolved from |
| `FolderPaths.OutputBound` | src/oph_ophidiadb_fs_library.c:148-163 | the output path has at most as many characters as its buffer, so it fits exactly if it has fewer, which is so if the absolute path does not fill its own buffer |
| `FolderPaths.LongestOutput` | src/oph_ophidiadb_fs_library.c:148-163 | a folder whose output path does not fit |
| `FolderPaths.ResolvesExactly` | src/oph_ophidiadb_fs_library.c:34-233 | a path is resolved if and only if it has a component, does not climb above the root and names a folder, and then to the folder that walking the tree leads to |
| `FolderPaths.CheckFolderSession` | src/oph_ophidiadb_fs_library.c:235-306 | the loop over the parents grants access exactly to the subtree of the home of the session |
| `FolderPaths.UnderIffPrefix` | src/oph_ophidiadb_fs_library.c:235-306 | a folder is in a subtree if and only if its path starts with the path of the top folder |
| `Subfolders.ListedExactly` | src/oph_filters.c:461-491 | the recursion names each folder once, and exactly those at a distance below the depth (all descendants for a positive flag, only the folder for zero) |
| `Filters.TryAppend` | src/oph_filters.c:52-59 | a piece is appended whole or not at all, and the text stays within its limit |
| `Filters.Query.constructor` | src/oph_filters.c:573-573 | a query starts with the condition that joins data cubes and containers |
| `Filters.Query.FilterLevel` | src/oph_filters.c:37-88 | the call succeeds if and only if the argument can be split into levels and the whole clause fits; then the whole clause is appended |
| `Filters.Query.FilterUsingSubset` | src/oph_filters.c:173-243 | the same for ranges of ids, as many as the parser of ranges reports; their conditions are first put together in a text of their own |
| `Filters.NamesAllIff` | src/oph_filters.c:214-230 | the clause has a condition for every range of the argument if and only if no piece of the argument is empty |
| `Filters.IdIsDropped` | src/oph_filters.c:190-230 | the filter that gives 1, nothing and 5, separated by bars, selects the id 1 only |
| `Filters.Query.AddFolder` | src/oph_filters.c:461-491 | the conditions for the folders named by the recursion are appended in order with separators, if and only if they all fit |
| `Filters.Query.FilterPath` | src/oph_filters.c:494-543 | the call succeeds if and only if the path is a folder in the home of the session and the whole clause fits; then the whole clause is appended |
| `Filters.PathFilterMeans` | src/oph_filters.c:494-543 | a path filter selects exactly the rows in the wanted folders, negated exactly the others; each folder is named once and all are in the home of the session although only the top one is checked |
| `Filters.PathArgumentsMean` | src/oph_filters.c:501-507 | with recursion and a positive depth d the filter selects the rows whose folder is in the subtree and less than d levels down, with recursion and no positive depth those of the whole subtree, and without recursion those of the folder |
| `Filters.PathIsAllowed` | src/oph_filters.c:511-521 | the printed path of a folder is accepted exactly for sessions whose home it lies in |
| `Filters.DotsAreRefused` | src/oph_filters.c:511-515 | a path with steps such as . and .., or that does not start at the root, is refused |
| `Queries.RunFilters` | src/oph_filters.c:557-727 | if all filters of a query succeed, its text selects exactly the rows of data cubes with their own containers that meet every filter given, and the query has the whole text if and only if there is room for it |
| `Queries.GroupMeans` | src/oph_filters.c:627-710 | the clause of a level, subset or path filter holds for exactly the rows that it asks for, negated for exactly the others |
| `Queries.LevelArgumentsMean` | src/oph_filters.c:48-76 | a list of levels separated by bars selects exactly the rows with one of these levels, negated exactly the others; an equals sign or a semicolon in it is refused |
| `Queries.SubsetArgumentsMean` | src/oph_filters.c:190-230 | a list of ranges written as start, stride and end, separated by bars, selects exactly the rows whose id is reached from a start in steps up to its end, negated exactly the others |
| `Clauses.NegationIsComplement` | src/oph_filters.c:61-76 | for every list of conditions the negated clause holds exactly for the rows for which the positive one does not |
| `Clauses.ChainMeans` | src/oph_filters.c:61-76 | conditions joined by OR select the rows that meet one of them, negated ones joined by AND the rows that meet none |
| `Clauses.AtomTexts` | src/oph_filters.c:70-70 | the conditions as they stand in the text |
| `ClauseReader.WhereIsRead` | src/oph_filters.c:30-35 | the text of a query, the join and any clauses, can be read in one way only |
| `ClauseReader.TextMeans` | src/oph_filters.c:573-573 | the text selects exactly the rows whose data cube is in the container and that meet every clause |
| `ClauseReader.FilterSelects` | src/oph_filters.c:52-59 | a clause appended to the join and any clauses, or to no text, selects of the rows selected before those that meet it |
| `ClauseReader.NegationSelectsTheOthers` | src/oph_filters.c:61-76 | of the rows selected so far by the join and any clauses, the text with the negated clause selects exactly those that the text with the positive clause does not |
| `Compression.Compress` | src/oph_flow_control_operators.c:1431-1474 | the compressed text is never longer than the input, its ranges expand with the step to the integers of the input, and one of them is wide if and only if two neighbours differ by the step; without integers or a positive step the text stays |
| `Compression.ReadBack` | src/oph_subset_library.c:64-189 | the parser reads the compressed text as the written ranges, each with stride 1 |
| `Compression.CompressAndExpand` | src/oph_flow_control_operators.c:1652-1679 | compressing, reading and expanding gives the list, cut to 32 bits, if and only if the step is 1 or no two neighbours differ by it, and the list itself if moreover all values fit in 32 bits |
| `Compression.StepIsLost` | src/oph_subset_library.c:126-140 | the list 1,3 with step 2 is written as 1:3, which is read as 1, 2 and 3 |
| `Ranges.SubsetRange` | src/oph_subset_library.c:109-178 | the loop over the bounds of a range gives start, end and stride for none to three of them, with the word for the end, and an error in all other cases |
| `Ranges.BoundsAreRead` | src/oph_subset_library.c:112-178 | for all bounds: one is a value, two are start and end with stride 1, three are start, stride and end, more are an error; the word for the end, in capitals or small letters, gives the largest value in any place and an error if it is not known |
| `Ranges.StartStrideEnd` | src/oph_subset_library.c:141-155 | three numbers are read as start, stride and end, two as start and end with stride 1 |
| `Ranges.SubsetParse` | src/oph_subset_library.c:64-189 | the parser gives the ranges of all pieces, empty ones, too, the sum of their sizes, and the number of pieces that are not empty, which bounds the loops over the ranges; it fails if one of the pieces cannot be read |
| `Ranges.Expand` | src/oph_flow_control_operators.c:1665-1679 | the loop over the first ranges, as many as the parser reports, fills an array of the size given with their values, as far as there is room |
| `Ranges.ExpandsAll` | src/oph_subset_library.c:179-180 | if all ranges are used and their strides are positive, the size that the parser computes is the number of values, and the loop writes all of them in order |
| `Ranges.FilledIff` | src/oph_flow_control_operators.c:1665-1679 | for every text that can be parsed the array is filled if and only if no piece of the text is empty or a used range has a negative stride; with positive strides exactly the values of the used ranges are written |
| `Ranges.NumberFits` | src/oph_subset_library.c:74-87 | the number that the parser reports is at most the number of ranges, and equal if and only if no piece is empty |
| `Ranges.UsedPieces` | src/oph_subset_library.c:74-187 | the used ranges are those of the first pieces, and those of the pieces that are not empty if and only if no empty piece comes before another one |
| `Ranges.LastRangeIsLost` | src/oph_subset_library.c:165-171 | in 1,,5 the empty piece is read as the range 1, and the range 5 is not used |
| `Ranges.ArrayIsNotFilled` | src/oph_subset_library.c:165-180 | in 1,5, with nine values the array has eleven cells and two of them are written |
| `Text.ShownFits` | src/oph_flow_control_operators.c:1443-1470 | a number read from a text is printed in no more characters than the text has |
| `Text.ReadsNumber` | src/oph_flow_control_operators.c:1444-1444 | white space, a number with or without a plus sign and a rest without digits are read as the number, or the nearest long integer |
| `ArgSort.OrderArgsList` | src/oph_parser.c:77-108 | the sort terminates on every list and leaves in place the same nodes, sorted by id and stable for equal ids |
| `ArgSort.Pass` | src/oph_parser.c:87-104 | a pass removes exactly as many inversions as it counts exchanges, and if it counts none the list has no descent |
| `ArgSort.SwapInversions` | src/oph_parser.c:91-98 | an exchange of neighbours in the wrong order removes exactly one inversion |
| `ArgText.ArgToString` | src/oph_parser.c:308-336 | the text is the print of the arguments that are not skipped, with keys and values cut at their limit |
| `ArgText.SkippedKeys` | src/oph_parser.c:315-329 | the keys that are not printed, in capitals or small letters |
| `ArgText.PrintsLiterally` | src/oph_parser.c:330-333 | a pair is printed as the key, an equals sign, the value and a semicolon |
| `ArgText.ParseQuery` | src/oph_parser.c:184-260 | the parser returns the pairs of the text in order, and fails if there is none or a bracket is not closed |
| `ArgText.PrintsParsed` | src/oph_parser.c:184-260 | every text is the print of what is parsed from it, followed by a rest without a pair, and all pairs parsed are well-formed |
| `ArgText.RoundTrip` | src/oph_parser.c:308-336 | parsing a printed list returns exactly the arguments that are not skipped, in order, if and only if no key or value is longer than 4096 characters, keys are free of the key-value separator, and values are free of the parameter separator or closed by their own bracket |
| `ArgText.WellFormedIs` | src/oph_parser.c:196-214 | the arguments that survive, character by character |
| `ArgText.PrintAndParse` | src/oph_parser.c:184-260 | the two operations one after the other succeed with the arguments that are not skipped if and only if there are some and all are well-formed and short |
| `RetryLimiter.Limiter.IsInBl` | src/oph_auth.c:329-364 | a lookup drops the expired entries before the match and counts the attempt in the first entry of the pair |
| `RetryLimiter.Limiter.AddToBl` | src/oph_auth.c:292-316 | a new entry with count one is put in front |
| `RetryLimiter.Limiter.DropFromBl` | src/oph_auth.c:447-477 | the first entry of the pair and the expired ones before it are dropped |
| `RetryLimiter.Limiter.AuthUser` | src/oph_auth.c:1983-2062 | list, result and whether credentials were looked at, for every password file: one that cannot be opened, missing user, unreadable line, line without password, blocked, right, wrong |
| `RetryRuns.AcceptsExactly` | src/oph_auth.c:2005-2053 | a user whose line, the first one that is not passed over, gives a password is accepted if and only if the pair is not blocked and the password or its digest is the second piece of the line, or none is asked for |
| `RetryRuns.RefusesOthers` | src/oph_auth.c:2005-2058 | the answers without such a line: no line, a line without pieces, a line without password, a file that cannot be opened |
| `RetryRuns.OtherLinesDoNotDecide` | src/oph_auth.c:2010-2018 | empty lines and the lines of other users make no difference |
| `RetryRuns.OtherAttempt` | src/oph_auth.c:329-364 | attempts of other pairs leave the live entries of a pair alone |
| `RetryRuns.OpenAttempt` | src/oph_auth.c:2019-2030 | right credentials that are refused because the pair is blocked, and attempts without a password to compare with, only count the entry up |
| `RetryRuns.AttemptsAreLimited` | src/oph_auth.c:2017-2053 | from the attempt that adds the entry until it expires, with other pairs interleaved and no success of the pair (it may give the right credentials and be refused): at most five looks at the credentials for up to 32767 attempts, and one entry for less than 65536; if the password file has a password for the user at every attempt, the two bounds are exact |
| `RetryRuns.LimitWraps` | src/oph_auth.c:329-364 | the runs of 32768 and 65536 attempts in which the limit, and the uniqueness of the entry, fail |
| `RetryRuns.SuccessResets` | src/oph_auth.c:2037-2041 | right credentials are accepted exactly if the pair has no entry, an expired one that is still listed, or one that does not block it yet; and then it has no entry left |

## Left out

- Allocation is assumed to succeed, clocks are parameters (for the job list they do not go back), and integers are unbounded, except that the counter of attempts wraps as a short integer, numbers read from text are clamped as `strtoll` does, strides are taken as unsigned when values are counted, and levels, depths and expanded values are cut to 32 bits.
- Text buffers: the limits of the path buffers, of the filters and of the argument printer are modelled; those of the parser of ranges and of query texts are not, and neither is the memory behind the array of an output path or of parsed ranges.
- Selection.Workflow.SetStatusOfBlock: nothing is claimed about the first entry of the rewritten rows of dependents of the branch and of the root, which the walk overwrites several times; the graph is required to be acyclic from the branch on, and the root of a chain to have a dependent.
- SelectionPaths.EndIfForgetsTheBranch: requires that dependencies and dependents mirror each other, as the workflow parser sets them up.
- SelectionChain.RunChain: requires that each branch is met by the walk that skips the one before it; conditions are arbitrary outcomes (holds, fails, invalid), the expression evaluator and the substitution of variables in arguments are not modelled.
- LoopRuns.LoopRunsCountTimes: runs in which a task opens a loop again while its loop is open are excluded, as the engine starts a task once per run of its surroundings; `oph_endfor` is asked to restart the loop, as the engine does. The reset of the tasks of the body is not modelled.
- LoopRuns.CompletedLoopLeavesItsSize: the other tasks use other names for their variables than the loop does.
- Waiting.FreedExactlyOnce: what happens to the memory of a workflow that is slept on after it was freed is not modelled; the counter is taken to be there.
- JobList.JobList.FindJob: the other lookups of the job list (by workflow, by marker, by child job) use the same sweep and are not modelled; what a synchronous workflow does when it is told that it expired is not, either.
- Compression.Compress: the addition of the step to the last value is exact; the variant for real numbers is not modelled.
- Ranges.Expand: the addition of the stride to a value is exact, and the size of the array is not cut to the width of an int.
- RetryLimiter.Limiter.AuthUser: one clock reading per attempt, lines of the password file that fit its buffer, and the build variant in which a missing password skips the check.
- Folder names are unique in their folder, do not contain a slash and are not "." or "..", and there is one root, as the queries of the folder library expect; the order in which the database returns subfolders is a parameter.
- Clauses.ChainMeans: SQL NULL values do not occur, and the plugin that tests ids is taken to test membership in a range.
- The metadata, measure, parent and container filters: the same bounded appends, and the metadata filters are joined without parentheses, so that no complement law holds for them.
- `oph_set_arg`, `oph_get_arg` and `oph_parse_program`: simple list operations that would only add easy members.
- SOAP, JSON, SQL, OpenID, tokens, roles, file polling, notifications, and the workflow engine around the operators.
