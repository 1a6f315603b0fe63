# Verified models of Tempest's core algorithms

Tempest is a workflow engine written in Go out of many small in-memory algorithms. This project models the
ones that carry whole-run or meaning-preserving promises and proves those promises in Dafny:

- the workflow engine (`Workflow*.dfy`): runs, steps and the lease queue as a state machine;
- the graph mutator (`GraphMutator.dfy`, `Splice.dfy`, `TopologicalSort.dfy`, over `Digraph.dfy`);
- JSON pointers, patches and diffs (`Json*.dfy`), after RFC 6901 and RFC 6902;
- deficit round-robin lanes (`Lane*.dfy`);
- the deadlock detector (`WaitForGraph.dfy`, `DeadlockDetector.dfy`);
- the compactor's key-value store (`Compactor.dfy`, `CompactorStore.dfy`);
- the linter's graph rules (`Analyzer.dfy`, `Reachability.dfy`);
- smooth weighted round robin (`SmoothRoundRobin.dfy`, `LoadBalancer.dfy`);
- leader election, fenced storage and fencing tokens (`Election*.dfy`);
- the ring log (`RingFrames.dfy`, `RingLog.dfy`, `RingBuffer.dfy`);
- cron schedules (`Calendar.dfy`, `Cron*.dfy`).

Each part has value-level specification functions, theorems about them over all inputs or all runs, and
classes and methods in the form of the Go code whose contracts tie their new state to the specification.
`dafny verify dfyconfig.toml` checks the whole project.

## Conventions

- One public method is one atomic step, unless a section below says otherwise. Time, random ids and the
  outcome of handlers are parameters.
- Ids, keys and values are type parameters where the proofs do not depend on them being strings; an order on
  ids is a parameter, and `Sorting.StringOrder` shows that Go's string order qualifies. Ids are
  read as valid UTF-8, on which Go's byte order and the order of characters used here agree. The empty string,
  where the code tests for it, is a distinguished value of the type.
- Loops over Go maps pick keys in any order, so the contracts hold for every order.
- Integers are unbounded; widths are written out where they matter (frame lengths and sequence numbers of the
  ring log).

## Findings

- `ValidateDefinitionSteps` marks a step's id as declared before it checks the step's dependencies
  (pkg/validation/validation.go:103-111), so a step may depend on itself. Such a step never runs. Completion
  is proved for accepted definitions exactly without self-dependencies (`SelfDependencyAccepted`,
  `DeclaredFirstIff`, `SelfDependencyNeverRuns`, `SubmittedRunsComplete`).
- The store accepts definitions that validation would refuse (internal/persistence/memstore/memstore.go:60-69). With
  repeated step ids all updates go to the first step of an id (223-237), and the run never succeeds:
  `DuplicateNeverSucceeds`. `SubmittedRunsComplete` is for the definitions that validation accepts.
- A member that changes from a value to null is removed by the diff instead of set to null
  (internal/deltadiff/diff.go:42-49). `RoundTripIff` gives the exact condition, `DiffThenApply` the exact
  result, `NullMemberLost` the failing case. In arrays such a change shifts positions:
  it round-trips only if such changes balance (`ArrayNullFlipsBalance`), which is not enough on one position
  (`ArrayNullFlipFails`) and can be enough on two (`ArrayNullFlipsCanCancel`).
- Object keys are put into paths unescaped (internal/deltadiff/diff.go:82 and 96). `RoundTripIff` gives the exact
  condition for changes at any depth; `AddedMemberIff`, `RemovedMemberIff` and `ChangedMemberIff` single it out
  for one member.
- The rollback of a failed `InjectAfter` also redirects nodes that depended on the new id before
  (internal/graphmutator/graphmutator.go:281-291): `RollbackExact`, with a failing input in `RollbackLoses`. A
  failed `ExpandFanOut` does not undo its rewiring (357-365): `FanOutUndoneIff`, `FanOutFailure`, `FanOutLoses`. A
  failed `InlineSubDAG` leaves the sub-DAG and its rewiring behind (449-453): `InlineUndoneIff`, `InlineFailure`,
  `InlineLoses`. With fresh ids, from a valid DAG and, for inlining, with a valid sub-DAG, none of the three is
  reached; inlining does not check the sub-DAG (`InlineValid`).
- A ring buffer filled exactly to its capacity reads as empty, because reader and writer positions coincide
  (internal/mmapring/cursor.go:33): `DeliversIff` gives the exact condition, `FullBufferReadsEmpty` and `Snapshot`
  the failing case.
- Not every cursor that the writer has lapped gets an error (internal/mmapring/cursor.go:43): where a later frame
  starts at its position it skips to that frame (`LappedSkips`). For frames of one size that divides the capacity
  `EqualFrames` gives the exact result of every read: there a lapped cursor never gets an error.
- The comment on `NextEpoch` says that it resets the sequence (internal/fencing/token.go:84); the code does not,
  and the model follows the code. A resource's first token sets its epoch back to 1 whatever it was.

## Model

| member | source | states |
|---|---|---|
| `WorkflowRuns.EveryRunIsSafe` | internal/scheduler/scheduler.go:96-311 | The engine invariant holds in every state of every sequence of creating definitions, submitting, cancelling and processing leases, with handlers that may fail or be missing. |
| `WorkflowRuns.SafetyMeaning` | internal/scheduler/scheduler.go:125-146 | In such a state: a step that is not PENDING has all dependencies done; a step is QUEUED exactly when it has a queue item; a run is SUCCEEDED exactly when all its steps are done; a run with a FAILED step is not SUCCEEDED. |
| `WorkflowOutcomes.LeaseOutcome` | internal/scheduler/scheduler.go:176-219 | In every state that satisfies the invariant: after a lease is processed the step is SUCCEEDED if its handler is known and succeeds, else step and run are FAILED; an unknown handler leaves the call log unchanged, a known one adds exactly this call. |
| `WorkflowOutcomes.FinishedHasCause` | internal/scheduler/scheduler.go:155-254 | Over every run: a step is SUCCEEDED only if some pass leased it with a known handler that succeeded, and FAILED only if some pass leased it with a handler that failed or is missing. |
| `WorkflowOutcomes.CallsInOrder` | internal/scheduler/scheduler.go:155-166 | A pass calls the known handlers of its leases, each once, in the order in which they were leased. |
| `WorkflowStates.FailedIff` | internal/scheduler/scheduler.go:221-296 | Over every run of the engine, a run is FAILED if and only if one of its steps is. |
| `WorkflowStates.CancelledWasAsked` | internal/scheduler/scheduler.go:298-307 | Over every run of the engine, a run is cancelled only if an earlier operation cancelled it. |
| `WorkflowStates.AttemptsCounted` | internal/scheduler/scheduler.go:182-273 | Over every run of the engine: FAILED steps count two attempts and all others none, and waiting queue items count one. |
| `WorkflowStates.SubmitCreates` | internal/scheduler/scheduler.go:96-146 | A submitted run starts QUEUED with one step per definition: queued at once if it has no dependencies, else PENDING; nothing else changes. |
| `WorkflowRuns.NextKeeps` | internal/scheduler/scheduler.go:96-311 | Every single operation keeps the invariant. |
| `WorkflowRuns.SubmitKeeps` | internal/scheduler/scheduler.go:96-123 | Submitting a run, or being refused, keeps the invariant. |
| `WorkflowRuns.CancelKeeps` | internal/scheduler/scheduler.go:298-307 | Cancelling keeps the invariant: the cancelled run can still be completed by leases already queued. |
| `WorkflowRuns.ExecuteAllKeeps` | internal/scheduler/scheduler.go:155-166 | Processing a batch of leases in order keeps the invariant and leaves items outside the batch alone. |
| `WorkflowRuns.LeaseKeeps` | internal/persistence/memstore/memstore.go:270-287 | Leasing items keeps the invariant. |
| `WorkflowSafety.ExecuteKeeps` | internal/scheduler/scheduler.go:176-219 | Executing one lease keeps the invariant and settles exactly that step: SUCCEEDED if its handler is known and succeeds, otherwise FAILED together with the run; the handler is called exactly if it is known. |
| `WorkflowSafety.CompleteKeeps` | internal/scheduler/scheduler.go:221-254 | Completing a step keeps the invariant; every step it unblocks is queued, no other. |
| `WorkflowSafety.FailKeeps` | internal/scheduler/scheduler.go:256-296 | Failing a step keeps the invariant, makes step and run FAILED, removes the queue item and calls nothing. |
| `WorkflowSafety.ReadyNames` | internal/workflow/workflow.go:38-67 | A step is listed as ready exactly when it is PENDING and all its dependencies are done. |
| `WorkflowProgress.PassProgress` | internal/scheduler/scheduler.go:155-166 | With handlers that succeed and a clock that moves on, a pass finishes at least one step whenever any is unfinished. |
| `WorkflowProgress.Completion` | internal/scheduler/scheduler.go:155-254 | After as many passes as there were unfinished steps, every run has SUCCEEDED, every step too, and each handler was called exactly once. |
| `WorkflowProgress.WorkIsQueued` | internal/scheduler/scheduler.go:125-146 | As long as something is unfinished, something is queued. |
| `WorkflowValidation.ValidateDefinitionSteps` | pkg/validation/validation.go:91-114 | Accepts exactly the non-empty definitions with well-formed distinct ids, handlers, and dependencies on the step itself or an earlier one; otherwise the error names the first fault of the first faulty step. |
| `WorkflowValidation.StepIdPattern` | pkg/validation/validation.go:16-55 | Ids are at most 64 characters: a lower-case letter, then lower-case letters, digits, dashes and dots. |
| `WorkflowValidation.SelfDependencyAccepted` | pkg/validation/validation.go:103-111 | A definition whose only step depends on itself is accepted, although the step is not declared before its use. |
| `WorkflowValidation.DeclaredFirstIff` | pkg/validation/validation.go:91-114 | Among accepted definitions, every dependency is on an earlier step if and only if no step depends on itself. |
| `WorkflowValidation.SelfDependencyNeverRuns` | internal/scheduler/scheduler.go:125-146 | Over every run, a step that depends on itself stays PENDING and its run never becomes SUCCEEDED. |
| `WorkflowValidation.SubmittedRunsComplete` | internal/scheduler/scheduler.go:96-254 | End to end: create accepted definitions without self-dependencies, submit any runs, process with succeeding handlers: every run succeeds and every handler is called exactly once. |
| `WorkflowDuplicates.DuplicateNeverSucceeds` | internal/scheduler/scheduler.go:221-254 | Over every run with any definitions, also ones that validation would refuse: a step whose id an earlier step has stays PENDING, and its run never becomes SUCCEEDED. |
| `WorkflowDuplicates.NextBlocked` | internal/scheduler/scheduler.go:96-311 | Every single operation keeps that. |
| `WorkflowEngine.FindReadySteps` | internal/workflow/workflow.go:38-67 | The loops over dependencies and states return the specified ready steps, in order of definition. |
| `WorkflowEngine.FindStepDef` | internal/scheduler/scheduler.go:329-336 | The first definition with the id, if any. |
| `WorkflowEngine.Store.CreateDefinition` | internal/persistence/memstore/memstore.go:60-69 | Refuses an existing definition, else adds it. |
| `WorkflowEngine.Store.GetDefinitionByName` | internal/persistence/memstore/memstore.go:81-96 | A stored definition of that name with the largest version. |
| `WorkflowEngine.Store.CreateRun` | internal/persistence/memstore/memstore.go:140-149 | Refuses an existing run, else adds it. |
| `WorkflowEngine.Store.UpdateRunState` | internal/persistence/memstore/memstore.go:195-210 | Overwrites the state of the run whatever it was. |
| `WorkflowEngine.Store.UpdateStepState` | internal/persistence/memstore/memstore.go:223-237 | Replaces the first step with the id; succeeds exactly if the run exists and has such a step. |
| `WorkflowEngine.Store.Enqueue` | internal/persistence/memstore/memstore.go:239-246 | Adds or replaces one queue item. |
| `WorkflowEngine.Store.DequeueAny` | internal/persistence/memstore/memstore.go:270-287 | Leases distinct visible items, all of them when they are fewer than the limit or the limit is not positive; exactly those become invisible for 30 seconds and count one attempt more. |
| `WorkflowEngine.Store.CompleteStep` | internal/persistence/memstore/memstore.go:289-298 | Removes exactly the one queue item. |
| `WorkflowEngine.Engine.EnqueueReadySteps` | internal/scheduler/scheduler.go:125-146 | The loop refines the specified marking and queueing of all ready steps. |
| `WorkflowEngine.Engine.Submit` | internal/scheduler/scheduler.go:96-123 | Not found exactly if no definition has the name; otherwise the latest one decides: refused as invalid without steps, as existing under a used id, and submitted as specified in all other cases. |
| `WorkflowEngine.Engine.Cancel` | internal/scheduler/scheduler.go:298-307 | Not found, conflict for a finished run, or the run is CANCELLED; queue, steps and definitions stay as they are. |
| `WorkflowEngine.Engine.FailStep` | internal/scheduler/scheduler.go:256-296 | Refines the specified failure of step and run. |
| `WorkflowEngine.Engine.CompleteStep` | internal/scheduler/scheduler.go:221-254 | Refines the specified completion, up to finishing the run or queueing what became ready. |
| `WorkflowEngine.Engine.ExecuteLease` | internal/scheduler/scheduler.go:176-219 | Refines the specified execution, with missing runs, definitions and handlers; `LeaseOutcome` says what becomes of step, run and call log. |
| `WorkflowEngine.Engine.ProcessLeases` | internal/scheduler/scheduler.go:155-166 | Refines the specified pass over the leases dequeued. |
| `TopologicalSort.Sort` | internal/graphmutator/graphmutator.go:149-199 | Succeeds if and only if no dependency is missing and there is no cycle; the result is a valid order and lexicographically least among all valid orders; the error tells the two failures apart. |
| `TopologicalSort.LeastUnique` | internal/graphmutator/graphmutator.go:149-199 | The least valid order is unique, so map iteration order does not matter. |
| `TopologicalSort.GreedyIsLeast` | internal/graphmutator/graphmutator.go:171-192 | Always taking the least available node gives an order no later than any other valid order. |
| `TopologicalSort.CountEdges` | internal/graphmutator/graphmutator.go:153-169 | Detects missing dependencies exactly, counts in-degrees and inverts the edges with multiplicity. |
| `TopologicalSort.Release` | internal/graphmutator/graphmutator.go:185-191 | Decrements once per edge and queues exactly the nodes that reach zero, in sorted order. |
| `TopologicalSort.StuckHasCycle` | internal/graphmutator/graphmutator.go:194-196 | A worklist that runs dry early proves a cycle. |
| `Splice.SpliceTheorem` | internal/graphmutator/graphmutator.go:373-456 | Replacing a node by a DAG yields a DAG, and says for every pair of its nodes exactly when one runs before the other. |
| `Splice.SpliceValidIff` | internal/graphmutator/graphmutator.go:373-456 | With ids nobody named before, the spliced graph is a DAG if and only if the original was. |
| `GraphMutator.InjectBeforeOrder` | internal/graphmutator/graphmutator.go:210-245 | From a valid DAG and a fresh id the result is a valid DAG, the order of the old nodes is the same in both directions, and the new node runs after what the target ran after and before the target and what followed it. |
| `GraphMutator.InjectAfterOrder` | internal/graphmutator/graphmutator.go:250-294 | The same for injecting after a node. |
| `GraphMutator.FanOutOrder` | internal/graphmutator/graphmutator.go:297-368 | The survivors keep their order exactly; branches and join stand where the template stood. |
| `GraphMutator.FanOutBranches` | internal/graphmutator/graphmutator.go:297-368 | Branches are unordered among themselves and all run before the join. |
| `GraphMutator.InlineOrder` | internal/graphmutator/graphmutator.go:373-456 | Outer and inner orders are kept exactly; every inner node runs after all upstream and before all downstream nodes of the composite. |
| `GraphMutator.InjectBeforeValid` | internal/graphmutator/graphmutator.go:210-245 | With an id nobody named before, the result is a valid DAG if and only if the original was: the operation neither breaks nor repairs a graph. |
| `GraphMutator.InjectAfterValid` | internal/graphmutator/graphmutator.go:250-294 | The same for injecting after a node. |
| `GraphMutator.FanOutValid` | internal/graphmutator/graphmutator.go:297-368 | The same for expanding a template into branches and join. |
| `GraphMutator.InlineValid` | internal/graphmutator/graphmutator.go:373-456 | With unused disjoint ids, no dangling names in the sub-DAG and its exits listed, the result is valid if and only if the graph and the sub-DAG both were: inlining does not check the sub-DAG first. |
| `GraphMutator.RollbackExact` | internal/graphmutator/graphmutator.go:281-291 | Undoing a failed injection restores the graph if and only if nobody depended on the new id before. |
| `GraphMutator.RollbackLoses` | internal/graphmutator/graphmutator.go:281-291 | A concrete family of graphs on which the injection fails and its rollback changes the graph. |
| `GraphMutator.FanOutUndoneIff` | internal/graphmutator/graphmutator.go:357-365 | Exactly when a failed fan-out leaves the graph as it was: no new id is taken by another node, and nothing depends on the template, unless one of the new nodes bears its id. |
| `GraphMutator.FanOutFailure` | internal/graphmutator/graphmutator.go:357-365 | With unused ids a fan-out of an invalid graph fails, and then restores the graph if and only if nothing depends on the template. |
| `GraphMutator.FanOutLoses` | internal/graphmutator/graphmutator.go:357-365 | A concrete family of graphs on which the fan-out fails and its rollback changes the graph. |
| `GraphMutator.InlineFailure` | internal/graphmutator/graphmutator.go:449-453 | For every graph and every non-empty sub-DAG with disjoint ids, valid or not: a failed inlining never restores the graph, and every node of the sub-DAG stays behind. |
| `GraphMutator.InlineUndoneIff` | internal/graphmutator/graphmutator.go:449-453 | For any sub-DAG, also one that shares ids with the graph: a failed inlining restores the graph if and only if the graph already had every copied node as copied, and nothing else depends on the composite or the composite is the only exit. |
| `GraphMutator.InlineLoses` | internal/graphmutator/graphmutator.go:373-456 | A valid graph and a fresh sub-DAG of one self-dependent node: inlining fails, and a node has lost its dependency on the composite. |
| `GraphMutator.DAG.AddNode` | internal/graphmutator/graphmutator.go:66-76 | Refuses an existing id, else adds the node. |
| `GraphMutator.DAG.TopologicalSort` | internal/graphmutator/graphmutator.go:149-199 | The sort on the mutable graph: success exactly for valid DAGs, with the least order. |
| `GraphMutator.DAG.Validate` | internal/graphmutator/graphmutator.go:202-205 | Accepts exactly the valid DAGs, and otherwise reports a missing dependency if there is one and a cycle if not. |
| `GraphMutator.DAG.InjectBefore` | internal/graphmutator/graphmutator.go:210-245 | Succeeds if and only if the injected graph is a valid DAG, with that graph as the new state, and always for a valid DAG and fresh id; each failure has its error and leaves the graph exactly as it was. |
| `GraphMutator.DAG.InjectAfter` | internal/graphmutator/graphmutator.go:250-294 | Succeeds if and only if the injected graph is a valid DAG, with that graph as the new state, and always for a valid DAG and fresh id; refusals change nothing and a failed validation leaves exactly the rolled-back graph. |
| `GraphMutator.DAG.ExpandFanOut` | internal/graphmutator/graphmutator.go:297-368 | Succeeds if and only if the fanned-out graph is a valid DAG, and always for a valid DAG and fresh distinct ids; gives the error and the exact state after every failure, with the template restored as the rewiring left it. |
| `GraphMutator.DAG.FanOut` | internal/graphmutator/graphmutator.go:315-352 | The loops that insert branches and join, rewire, and delete the template build the specified graph; the template node comes out rewired where it depended on itself. |
| `GraphMutator.DAG.InlineSubDAG` | internal/graphmutator/graphmutator.go:373-456 | Succeeds if and only if the inlined graph is a valid DAG, and always for a valid DAG and a valid non-empty sub-DAG with disjoint ids; gives the error and the exact state after every failure. |
| `GraphMutator.DAG.RootsAndExits` | internal/graphmutator/graphmutator.go:389-411 | Lists exactly the nodes without dependencies and exactly those nothing depends on, each once. |
| `Sorting.StringOrder` | internal/graphmutator/graphmutator.go:171-191 | Go string comparison is a total order, as the graph theorems require of ids. |
| `JsonPointer.ParseFormat` | internal/deltadiff/patch.go:73-105 | Parsing a formatted token list gives the list back, for every list. |
| `JsonPointer.FormatParse` | internal/deltadiff/patch.go:73-105 | Formatting a parsed pointer gives it back, for every pointer of the grammar in section 3 of RFC 6901. |
| `JsonPointer.UnescapeEscape` | internal/deltadiff/patch.go:84-102 | Two-pass unescaping undoes two-pass escaping of every token. |
| `JsonPointer.ParsePointer` | internal/deltadiff/patch.go:73-90 | The loop computes the specified tokens, and rejects pointers without a leading slash. |
| `JsonPointer.FormatPointer` | internal/deltadiff/patch.go:93-105 | The loop computes the specified text. |
| `JsonPatch.Apply` | internal/deltadiff/apply.go:11-102 | The loop applies operations in order and stops at the first failure; what each operation does is told by the laws of `JsonOps`. |
| `JsonPatch.GetValue` | internal/deltadiff/apply.go:104-129 | The walk finds the value the specification finds, or fails where it fails. |
| `JsonPatch.GetPut` | internal/deltadiff/apply.go:131-246 | A value put at a path is read back there, the last put wins, and putting back what is there changes nothing. |
| `JsonOps.AddOpLaw` | internal/deltadiff/apply.go:59-60 | Adding a member of an object: the path reads the value, and every path apart from it reads as before. |
| `JsonOps.RemoveOpLaw` | internal/deltadiff/apply.go:62-63 | Removing a member succeeds exactly if the path can be read; then it cannot, and every path apart from it reads as before. |
| `JsonOps.ReplaceLaw` | internal/deltadiff/apply.go:65-71 | For any path, in objects and arrays: replacing succeeds exactly if the path can be read, then it reads the new value, and every path apart from it reads as before. |
| `JsonOps.CopyLaw` | internal/deltadiff/apply.go:73-82 | Copying to a member of an object succeeds exactly if `from` can be read; then the path reads what `from` read, and every path apart from it reads as before. |
| `JsonOps.MoveLaw` | internal/deltadiff/apply.go:84-97 | Moving between members apart from each other succeeds exactly if `from` can be read; then the path reads what `from` read, `from` is not found, and every path apart from both reads as before. |
| `JsonOps.MoveUpLaw` | internal/deltadiff/apply.go:84-97 | Moving to an object above `from`, or onto `from` itself: the path reads what `from` read, and every path apart from it reads as before. |
| `JsonOps.MoveIntoItself` | internal/deltadiff/apply.go:84-97 | Moving a member of an object to a place inside itself always fails: not found. |
| `JsonOps.TestLaw` | internal/deltadiff/apply.go:49-57 | A test succeeds if and only if the path reads the given value, and then leaves the document as it is; the error tells a different value from a missing path. |
| `JsonOps.Composes` | internal/deltadiff/apply.go:73-97 | Copying is adding what `from` reads, and moving is removing and then adding it. |
| `JsonOps.AddToArrayLaw` | internal/deltadiff/apply.go:131-179 | Adding below an array inserts at every position up to its length and appends at the dash; any other token fails; other paths read as before. |
| `JsonOps.RemoveFromArrayLaw` | internal/deltadiff/apply.go:181-246 | Removing from an array closes the gap at every existing position; any other token is not found. |
| `JsonOps.NoContainer` | internal/deltadiff/apply.go:131-246 | Without an object or array to edit, adding and removing fail: not found if the parent is missing, patch failed if it is something else. |
| `JsonOps.RootLaws` | internal/deltadiff/apply.go:131-246 | The empty path sets or clears the whole document, and a null document takes members. |
| `JsonOps.PointerLaw` | internal/deltadiff/apply.go:43-97 | Exactly the pointers that are neither empty nor start with a slash are refused, for the path always, for `from` where it is used. |
| `JsonDiff.DiffRecursive` | internal/deltadiff/diff.go:36-71 | Appends exactly the specified operations to the patch. |
| `JsonDiff.DiffMaps` | internal/deltadiff/diff.go:73-106 | The loops over sorted keys append the specified removals, then additions and recursive changes. |
| `JsonDiff.DiffSlices` | internal/deltadiff/diff.go:108-135 | The loops append the specified element changes, additions and truncations. |
| `JsonLaws.PatchIff` | internal/deltadiff/diff.go:36-135 | At any path inside any document, applying the diff of two non-null values replaces the source there by the target, less members that became null, if and only if every differing key at any depth is plain. |
| `JsonLaws.DiffThenApply` | internal/deltadiff/apply.go:11-246 | Applying a diff to its source succeeds and gives the target less members that became null if and only if every differing key at any depth is plain; array positions must not turn null or stop being null. |
| `JsonLaws.RoundTripIff` | internal/deltadiff/diff.go:42-49 | The round trip law, exactly: under the same proviso on arrays it holds if and only if no compared member goes from a value to null and every key added, removed or changed, at any depth, is plain. |
| `JsonLaws.EmptyIff` | internal/deltadiff/diff.go:36-135 | A diff is empty if and only if the two values are equal. |
| `JsonKeys.Fails` | internal/deltadiff/diff.go:73-106 | A differing key that is not plain, at any depth and below any path, makes applying fail or miss both the target and the target less nulls. |
| `JsonKeys.BadKeySpared` | internal/deltadiff/diff.go:82-97 | No operation of the diff starts at the longest differing key that is not plain, so that member stays as in the source. |
| `JsonEdits.OpWithin` | internal/deltadiff/apply.go:131-246 | An edit strictly below a path acts on the value there alone: same result, same error, everything else unchanged. |
| `JsonLaws.NullMemberLost` | internal/deltadiff/diff.go:42-49 | A member set from a value to null is removed: the result is exactly the source without it. |
| `JsonLaws.RoundTrip` | internal/deltadiff/diff.go:36-135 | The round trip is exact for all values without inner nulls and without slash or tilde in keys, including nested arrays that grow or shrink. |
| `JsonLaws.AddedMemberIff` | internal/deltadiff/diff.go:95-101 | Adding a member round-trips if and only if the key is plain: it has no slash and unescaping leaves it alone. |
| `JsonLaws.RemovedMemberIff` | internal/deltadiff/diff.go:81-86 | Removing a member round-trips if and only if its key is plain. |
| `JsonLaws.ChangedMemberIff` | internal/deltadiff/diff.go:95-104 | Changing a member round-trips if and only if its key is plain, it is not set to null, and its own change round-trips. |
| `JsonArrays.ArrayNullFlipsBalance` | internal/deltadiff/diff.go:42-49 | For any two arrays, whatever else changes: the round trip needs as many positions that turn null as positions that stop being null. |
| `JsonArrays.ArrayNullFlipFails` | internal/deltadiff/diff.go:42-49 | A single array position that turns null or stops being null never round-trips, for every array and position. |
| `JsonArrays.ArrayNullFlipsCanCancel` | internal/deltadiff/diff.go:42-49 | Two such flips in the last two positions of any array cancel and round-trip, so no condition on single positions is exact. |
| `LaneScheduler.RunKeeps` | internal/lane/drr_scheduler.go:45-164 | Over every run of enqueues, visits and starvation boosts: deficits stay within 0 and quantum plus largest cost less 1, only the lane in turn exceeds largest cost less 1, and the task count equals the sum of the queues. |
| `LaneScheduler.RunFifo` | internal/lane/drr_scheduler.go:45-164 | Over every such run each lane is first in, first out, and every accepted task is dispatched exactly once or still queued. |
| `LaneScheduler.VisitKeeps` | internal/lane/drr_scheduler.go:118-162 | One visit keeps the invariant. |
| `LaneScheduler.EnqueueKeeps` | internal/lane/lane.go:80-99 | Enqueueing keeps the invariant. |
| `LaneScheduler.StarveKeeps` | internal/lane/drr_scheduler.go:105-114 | Serving a starving lane out of turn keeps the invariant. |
| `LaneFairness.DispatchWithin` | internal/lane/drr_scheduler.go:116-162 | With work queued, fewer than lanes * (largest cost + 1) visits pass without a dispatch. |
| `LaneFairness.Conservation` | internal/lane/drr_scheduler.go:130-145 | Cost served plus deficit at the end equals quanta received plus deficit at the start, for a lane that stays backlogged. |
| `LaneFairness.QuantaAlternate` | internal/lane/drr_scheduler.go:118-162 | Between turn boundaries two backlogged lanes receive numbers of quanta that differ by at most one. |
| `LaneFairness.Fair` | internal/lane/drr_scheduler.go:116-162 | Fairness: between turn boundaries the costs served to two backlogged lanes satisfy abs(Si*Qj - Sj*Qi) <= Qi*Qj + (M-1)*(Qi+Qj). |
| `LaneService.NewLane` | internal/lane/lane.go:47-62 | Refuses exactly the non-positive quanta; an empty lane satisfies the invariant, with capacity 10000 and threshold 30 where none is given. |
| `LaneService.DRRScheduler.Enqueue` | internal/lane/drr_scheduler.go:45-63 | Refuses exactly unknown lanes and full ones, each with its error; otherwise appends the task, at cost 1 if it had none, and keeps the invariant. |
| `LaneService.DRRScheduler.VisitLane` | internal/lane/drr_scheduler.go:119-161 | One turn of the loop refines the specified visit. |
| `LaneService.DRRScheduler.FindStarving` | internal/lane/drr_scheduler.go:106-107 | The first lane whose head has waited at least its threshold, if any. |
| `LaneService.DRRScheduler.TryRounds` | internal/lane/drr_scheduler.go:118-162 | Exactly two rounds of idle visits, or fewer up to the visit that serves a task. |
| `LaneService.DRRScheduler.ScheduleNext` | internal/lane/drr_scheduler.go:66-164 | With something queued the call returns a task after a bounded number of idle visits. A boosted task is the head of the first lane found starving; any other comes from the two rounds after a scan that found none, and all earlier scans, two rounds apart, found none. |
| `LaneService.DRRScheduler.Dispatch` | internal/lane/drr_scheduler.go:104-163 | The outer loop ends with a task, as specified for the call. |
| `LaneService.DRRScheduler.Attempt` | internal/lane/drr_scheduler.go:105-162 | One turn of the outer loop: a starving head, a task served within two rounds, or two idle rounds. |
| `DeadlockDetector.Detector.DetectDeadlocks` | internal/deadlock/deadlock.go:165-210 | Returns exactly the cycles of the wait-for graph: simple, pairwise disjoint, and holding every task that waits for itself, whatever the map order. |
| `WaitForGraph.FoundIff` | internal/deadlock/deadlock.go:165-210 | A task is in a reported cycle if and only if it waits for itself, directly or through others. |
| `WaitForGraph.ListedOnce` | internal/deadlock/deadlock.go:165-210 | Every cycle of the graph is reported exactly once, up to its starting point. |
| `WaitForGraph.SearchFinds` | internal/deadlock/deadlock.go:173-201 | One depth-first search extends the list of cycles to all tasks it has seen. |
| `WaitForGraph.ChainCycles` | internal/deadlock/deadlock.go:179-197 | The tasks on the search path that lie on a cycle are exactly those of the extracted stretch. |
| `WaitForGraph.AllBroken` | internal/deadlock/deadlock.go:254-284 | Removing one task of every reported cycle leaves no cycle. |
| `DeadlockDetector.Resolved` | internal/deadlock/deadlock.go:254-284 | After the removals the graph is acyclic if and only if no cycle had the empty id as its victim. |
| `DeadlockDetector.MutualExclusion` | internal/deadlock/deadlock.go:103-125 | Two tasks never hold the same lock. |
| `DeadlockDetector.Search.Dfs` | internal/deadlock/deadlock.go:174-201 | The closure appends exactly the cycle its chain closes, marks the chain visited and restores stack and path. |
| `DeadlockDetector.Detector.RegisterTask` | internal/deadlock/deadlock.go:57-68 | Registers or overwrites a task, keeping held locks consistent. |
| `DeadlockDetector.Detector.UnregisterTask` | internal/deadlock/deadlock.go:71-100 | Removes the task, frees exactly the locks it holds and drops it from the waiters of its lock. |
| `DeadlockDetector.Detector.AcquireLock` | internal/deadlock/deadlock.go:103-125 | Grants, records the wait, or reports an unknown task, in exactly the cases of the source. |
| `DeadlockDetector.Detector.ReleaseLock` | internal/deadlock/deadlock.go:128-143 | Frees the lock only if the task holds it. |
| `DeadlockDetector.Detector.BuildWaitForGraph` | internal/deadlock/deadlock.go:147-162 | The loop builds the specified graph. |
| `DeadlockDetector.WaitsForHolder` | internal/deadlock/deadlock.go:147-162 | In that graph a task waits for another exactly if the other holds the lock it has asked for. |
| `DeadlockDetector.ReleasedIs` | internal/deadlock/deadlock.go:71-143 | Unregistering a task frees exactly the locks it holds; releasing a lock frees it exactly if the task has it; all other holders stay. |
| `DeadlockDetector.WithoutIs` | internal/deadlock/deadlock.go:88-97 | Dropping a waiter removes all its entries and no others. |
| `DeadlockDetector.Detector.SelectVictim` | internal/deadlock/deadlock.go:213-251 | Some registered task of the cycle: of lowest priority and among those started last, or started last, or with the fewest locks, as the policy says; an error exactly when none is registered. |
| `DeadlockDetector.Detector.ResolveDeadlocks` | internal/deadlock/deadlock.go:254-284 | One victim per cycle, least under the policy in the state before the call; afterwards no task waits for itself, provided the empty id is not registered; and exactly when it was not picked. |
| `Compactor.RunRefines` | internal/compactor/compactor.go:96-307 | After any operations the live entries are those of a plain map on which the same puts and deletes were performed; flushing and compacting change nothing. |
| `Compactor.MergeIsNewest` | internal/compactor/compactor.go:238-246 | Keeping the largest sequence number per key agrees with looking in the newest table first. |
| `Compactor.MergeKeeps` | internal/compactor/compactor.go:222-262 | Merging and purging tombstones changes no lookup and keeps the invariant. |
| `Compactor.FlushKeeps` | internal/compactor/compactor.go:158-177 | Flushing changes no lookup and keeps later tables above earlier ones in sequence numbers. |
| `Compactor.WriteKeeps` | internal/compactor/compactor.go:104-115 | A put or delete changes exactly one key, flushed or not. |
| `CompactorStore.Search` | internal/compactor/compactor.go:51-53 | Binary search: everything before the result is below the key, nothing from it on is. |
| `CompactorStore.GetFrom` | internal/compactor/compactor.go:46-59 | Finds the entry of the key exactly when the table has one. |
| `CompactorStore.BuildTable` | internal/compactor/compactor.go:163-175 | A table sorted by key with exactly the given entries, whatever the map order. |
| `CompactorStore.Merge` | internal/compactor/compactor.go:238-246 | The nested loops compute the specified merge. |
| `CompactorStore.Store.Put` | internal/compactor/compactor.go:96-118 | The contents become the old ones with the key set, or the store is closed and unchanged. |
| `CompactorStore.Store.Delete` | internal/compactor/compactor.go:121-143 | The contents lose exactly the key, or the store is closed and unchanged. |
| `CompactorStore.Store.Flush` | internal/compactor/compactor.go:146-156 | The contents stay the same and the memtable is empty. |
| `CompactorStore.Store.Get` | internal/compactor/compactor.go:180-208 | The value of the key in the contents, absent, or closed. |
| `CompactorStore.Store.Compact` | internal/compactor/compactor.go:211-263 | The contents stay the same; at most one table is left and it has no tombstones. |
| `CompactorStore.Store.Stats` | internal/compactor/compactor.go:266-300 | The live count is the size of the contents. |
| `CompactorStore.Store.Close` | internal/compactor/compactor.go:303-307 | Closes without changing the contents. |
| `Analyzer.FindCycles` | internal/analyzer/cycle.go:31-120 | Reports nothing if and only if the dependencies among existing steps are acyclic, self-loops included; every reported path is a real simple cycle. |
| `Analyzer.CycleSearch.Dfs` | internal/analyzer/cycle.go:45-104 | Finishes the step and leaves path and earlier results as they were; as long as nothing is reported, every finished step comes after all its dependencies. |
| `Analyzer.CycleSearch.Explore` | internal/analyzer/cycle.go:50-99 | Goes through all dependencies of a step on the path; without a report all that exist are finished after it. |
| `Analyzer.CycleSearch.Look` | internal/analyzer/cycle.go:51-98 | One dependency is skipped, reported as a self-loop or back edge, or explored. |
| `Analyzer.BackEdge` | internal/analyzer/cycle.go:73-94 | The path from the gray step back to itself is a simple cycle of real dependencies. |
| `Analyzer.FinishedAcyclic` | internal/analyzer/cycle.go:102-103 | If all steps finished in order there is no cycle. |
| `Reachability.FindUnreachable` | internal/analyzer/reachability.go:21-74 | Reports once each, sorted by id, exactly the steps that no step without dependencies leads to; nothing for a valid DAG. |
| `Reachability.Spread` | internal/analyzer/reachability.go:38-57 | The breadth-first search marks exactly the steps an entry point leads to. |
| `Reachability.FindMissing` | internal/analyzer/reachability.go:83-107 | Reports every listing of a dependency that does not exist, as often as it is listed and nothing else, sorted by step and message; hence nothing if and only if there is none. |
| `Reachability.CleanMeansReachable` | internal/analyzer/reachability.go:21-107 | A workflow without cycles and without missing dependencies has no unreachable step. |
| `SmoothRoundRobin.NeverAhead` | internal/loadbalancer/loadbalancer.go:175-189 | After any k selections from zero weights, total * picks of a target <= k * its weight + total - 1. |
| `SmoothRoundRobin.BlockExact` | internal/loadbalancer/loadbalancer.go:175-189 | A block of as many selections as the total weight picks every target exactly as often as its weight and returns all current weights to zero. |
| `SmoothRoundRobin.EveryBlock` | internal/loadbalancer/loadbalancer.go:175-189 | The same holds for every later block. |
| `SmoothRoundRobin.Floor` | internal/loadbalancer/loadbalancer.go:175-189 | Current weights always sum to zero and none falls below 1 - total. |
| `SmoothRoundRobin.BestIsFirstLargest` | internal/loadbalancer/loadbalancer.go:182-184 | The winner is the first target with the largest current weight. |
| `LoadBalancer.Balancer.AddTarget` | internal/loadbalancer/loadbalancer.go:71-93 | Refuses a known id; a new target starts healthy, at zero, with weight at least one. |
| `LoadBalancer.Balancer.RemoveTarget` | internal/loadbalancer/loadbalancer.go:96-107 | Removes exactly the target, or reports it unknown. |
| `LoadBalancer.Balancer.SetHealth` | internal/loadbalancer/loadbalancer.go:110-122 | Sets the flag and keeps the healthy list right. |
| `LoadBalancer.Balancer.Rebuild` | internal/loadbalancer/loadbalancer.go:124-138 | The healthy list holds exactly the healthy targets, once each, sorted by id. |
| `LoadBalancer.Balancer.Select` | internal/loadbalancer/loadbalancer.go:161-189 | Performs one step of the abstract selection on the healthy targets and returns the winner, or nothing without healthy targets. |
| `LoadBalancer.BumpAll` | internal/loadbalancer/loadbalancer.go:177-185 | The loop in place adds every weight once and remembers the first largest. |
| `Election.NoSplitTerm` | internal/leader/leader.go:158-241 | In every state of every interleaving, two candidates that both believe to lead hold different terms. |
| `Election.TermsNeverDecrease` | internal/leader/inmem.go:20-41 | Terms are granted in non-decreasing order and each to one candidate only. |
| `Election.NoZombieWrites` | internal/fencing/storage_validator.go:31-87 | On every key, accepted puts and deletes come in the order of their terms, also across deletes, and those of one term from one candidate. |
| `ElectionLeases.GrantIff` | internal/leader/inmem.go:20-41 | Over every interleaving: a request is granted if and only if no other candidate holds a lease granted to it last, not released and not lapsed, at that time. |
| `ElectionLeases.LeaseExcludes` | internal/leader/inmem.go:26-29 | Over every interleaving with a clock that does not run back: once granted, and until the holder is granted anew or releases, nobody else is granted before the lease lapses. |
| `ElectionLeases.RenewalKeepsTerm` | internal/leader/inmem.go:31-35 | Over every interleaving: a renewal of one's own lease no later than its lapse keeps the term, and every other grant starts the next term. |
| `ElectionLeases.RecordIsLastGrant` | internal/leader/inmem.go:20-64 | In every state of every interleaving, the record names the candidate granted last and its lapse, unless it has released since. |
| `ElectionLeases.AcceptedIff` | internal/fencing/storage_validator.go:31-87 | Over every interleaving: a write is accepted if and only if its token has not expired and no accepted write of the key had a higher one. |
| `ElectionLeases.BeliefFollows` | internal/leader/leader.go:158-241 | A granted campaign makes a leader of the granted term; a refused one or stepping down ends it; nothing else changes who believes to lead. |
| `Election.ActKeeps` | internal/leader/leader.go:158-241 | Every atomic step of campaign, renewal, step-down, release and fenced write keeps the invariant. |
| `ElectionService.InMemCoordinator.TryAcquireOrRenew` | internal/leader/inmem.go:20-41 | Granted exactly if the lease is free, the candidate has it, or it has lapsed; a grant is for the given time from now, a refusal changes nothing; the term is as specified. |
| `ElectionService.InMemCoordinator.ReleaseLease` | internal/leader/inmem.go:55-64 | Gives up the lease only if the candidate holds it. |
| `ElectionService.Candidate.TryCampaign` | internal/leader/leader.go:158-179 | The candidate leads the granted term or follows. |
| `ElectionService.Candidate.CallRenew` | internal/leader/leader.go:205 | The heartbeat call is one grant attempt; the candidate itself does not change yet. |
| `ElectionService.Candidate.StoreTerm` | internal/leader/leader.go:209-213 | Stores the term of a renewal. |
| `ElectionService.Candidate.StandDown` | internal/leader/leader.go:229-241 | Stops believing to lead and says whether a release follows. |
| `ElectionService.FencedStorage.Put` | internal/fencing/storage_validator.go:31-54 | Expired exactly if now is after the expiry; otherwise accepted if and only if no accepted write of the key had a higher token; accepted writes of a key stay ordered. |
| `ElectionService.FencedStorage.Delete` | internal/fencing/storage_validator.go:69-87 | The same for deletes, which keep the highest token. |
| `ElectionService.FencedStorage.Get` | internal/fencing/storage_validator.go:57-66 | What is read was written with the highest token its key has seen, at least that of every accepted write. |
| `ElectionService.TokensIncrease` | internal/fencing/token.go:53-82 | Tokens of one resource strictly increase in the order of issue, whatever epochs are started in between. |
| `ElectionService.TokenGenerator.AcquireToken` | internal/fencing/token.go:53-82 | The n-th token of a resource has number n; the first one sets the epoch to 1. |
| `ElectionService.TokenGenerator.NextEpoch` | internal/fencing/token.go:85-91 | Advances the epoch and leaves the numbering alone. |
| `ElectionService.TokenGenerator.LatestToken` | internal/fencing/token.go:94-100 | The whole token issued last for the resource, exactly when there is one. |
| `RingFrames.HeaderRoundTrip` | internal/mmapring/frame.go:33-59 | Every header that fits its fields is decoded from what it encodes to, whatever bytes follow. |
| `RingFrames.ValueBigEndian` | internal/mmapring/frame.go:33-59 | Reading big-endian bytes gives back every number that fits. |
| `RingFrames.MostSignificantFirst` | internal/mmapring/frame.go:33-39 | Byte i of n is the i-th most significant one. |
| `RingFrames.HeaderLayout` | internal/mmapring/frame.go:33-39 | Magic number, sequence number, length, checksum and flags lie at bytes 0, 4, 12, 16 and 20. |
| `RingFrames.DecodeSound` | internal/mmapring/frame.go:42-59 | Whatever the bytes: too short or without the magic number they fail, each with its error; otherwise they are the encoding of the header they decode to. |
| `RingFrames.Encode` | internal/mmapring/frame.go:33-39 | Writes exactly the 22 header bytes into the buffer. |
| `RingLog.WriteChunk` | internal/mmapring/ring.go:69-79 | Writing a chunk keeps log byte p at p modulo the capacity for the last capacity bytes. |
| `RingLog.ReadIsLog` | internal/mmapring/ring.go:89-101 | Reading at a position still in the window gives the log from there. |
| `RingBuffer.Ring.constructor` | internal/mmapring/ring.go:19-29 | Small capacities become 65536; the buffer starts empty. |
| `RingBuffer.Ring.Append` | internal/mmapring/ring.go:37-66 | Adds exactly one frame with the next number to the history, or refuses one larger than the buffer and changes nothing. |
| `RingBuffer.Ring.WriteBytes` | internal/mmapring/ring.go:68-80 | The chunked loop appends the bytes to the log. |
| `RingBuffer.Ring.ReadBytes` | internal/mmapring/ring.go:89-101 | The chunked loop reads the bytes modulo the capacity. |
| `RingBuffer.Ring.ReadFrameAt` | internal/mmapring/ring.go:104-128 | Returns the frame decoded there or the error of magic or checksum. |
| `RingBuffer.ReadSound` | internal/mmapring/ring.go:104-128 | Whatever the bytes are: a frame is returned exactly if they start with the magic number and the checksum of the payload is right, and then it is the frame they encode; otherwise the error says which of the two is wrong. |
| `RingBuffer.ReadsBack` | internal/mmapring/ring.go:104-128 | At the start of a frame that is still in the buffer exactly that frame is read. |
| `RingBuffer.InStepReads` | internal/mmapring/cursor.go:24-50 | A cursor at a frame boundary less than the capacity behind the writer gets exactly the next frame, and nothing once it has caught up. |
| `RingBuffer.DeliversIff` | internal/mmapring/cursor.go:32-35 | An unread frame that is still whole in the buffer is delivered if and only if the writer is less than the capacity ahead; otherwise the cursor reports nothing. |
| `RingBuffer.FullBufferReadsEmpty` | internal/mmapring/cursor.go:32-35 | A single frame as long as the buffer is reported as nothing. |
| `RingBuffer.LappedSkips` | internal/mmapring/cursor.go:42-45 | A lapped cursor at whose position a later frame starts returns that frame: the sequence check does not notice the frames skipped. |
| `RingBuffer.EqualFrames` | internal/mmapring/cursor.go:24-50 | With frames of one size that divides the capacity, exactly what any cursor gets, however often it was lapped: the frame now in its slot, or nothing if the writer stands there, never an error. |
| `RingBuffer.StaysInStep` | internal/mmapring/cursor.go:24-50 | Appending leaves a cursor in step if and only if the writer stays less than the capacity ahead. |
| `RingBuffer.Cursor.TryNext` | internal/mmapring/cursor.go:24-50 | Sequence numbers delivered strictly increase; a frame is delivered exactly if one is read before the write position and it is newer. A cursor in step advances by exactly one frame; any other moves only on success, then to the end of the frame it read. |
| `RingBuffer.Snapshot` | internal/mmapring/ring.go:131-144 | The full history while it is shorter than the capacity, and nothing when it fills the buffer exactly. |
| `CronNext.Next` | internal/cronengine/cronengine.go:167-195 | The least minute strictly after the given one and before the five-year limit that matches all five fields, or none if there is none; the weekday is the one of `WeekdayUnique`, the limit that of `FiveYearsOn`. |
| `CronNext.EarliestUnique` | internal/cronengine/cronengine.go:166-195 | There is only one such minute. |
| `CronNext.SkipMonth` | internal/cronengine/cronengine.go:176-179 | Jumping to the next month advances time and passes over no match. |
| `CronNext.SkipDay` | internal/cronengine/cronengine.go:180-183 | Jumping to the next day advances time and passes over no match. |
| `CronNext.SkipHour` | internal/cronengine/cronengine.go:184-187 | Jumping to the next hour advances time and passes over no match. |
| `CronNext.SkipMinute` | internal/cronengine/cronengine.go:188-191 | The next minute advances time and passes over no match. |
| `Calendar.OrderIff` | internal/cronengine/cronengine.go:175-195 | Comparing instants agrees with comparing years, months, days, hours and minutes in turn, leap years included. |
| `Calendar.MinuteStep` | internal/cronengine/cronengine.go:171 | Adding a minute, with all carries, is one minute later. |
| `Calendar.WeekdayAnchor` | internal/cronengine/cronengine.go:180 | 1 January 1970 is a Thursday, whatever the time of day. |
| `Calendar.WeekdayStep` | internal/cronengine/cronengine.go:180 | Each day has the weekday after that of the day before. |
| `Calendar.WeekdayUnique` | internal/cronengine/cronengine.go:180 | For every date, before and after 1970, any reckoning with that anchor and that step agrees with this one. |
| `Calendar.GregorianCycle` | internal/cronengine/cronengine.go:171-195 | 97 leap years and a whole number of weeks in every 400 years. |
| `Calendar.FiveYearsOn` | internal/cronengine/cronengine.go:173-174 | The limit is the same date and time five years on, and 1 March where 29 February does not exist. |
| `Calendar.FiveYearsValid` | internal/cronengine/cronengine.go:174 | The limit is a valid later time, also from 29 February. |
| `CronField.ParseField` | internal/cronengine/cronengine.go:112-164 | The loops compute the specified set or error; `CronText.FieldReadsBack` says which for every text of the grammar. |
| `CronField.FieldMeaning` | internal/cronengine/cronengine.go:112-164 | A field is invalid if and only if one of its parts is, and selects only values within bounds. |
| `CronField.SetBits` | internal/cronengine/cronengine.go:159-161 | The stepping loop sets exactly the values of the arithmetic progression. |
| `CronText.FieldReadsBack` | internal/cronengine/cronengine.go:112-164 | For every comma list of stars, numbers and ranges, with or without a step and with any white space around: refused exactly if a part is out of bounds, reversed or has a zero step, and otherwise selecting exactly the values its parts name. |
| `CronText.StarAndNumber` | internal/cronengine/cronengine.go:132-157 | In particular a star selects all values and a number just itself, or is refused out of bounds. |
| `CronText.AcceptedShape` | internal/cronengine/cronengine.go:112-164 | Only stars, numbers and ranges within bounds are accepted, with no step or with one slash and a positive number; the range is the one written. |
| `CronText.ShapeAccepted` | internal/cronengine/cronengine.go:112-164 | All of these are accepted, however their numbers are written. |
| `CronSchedule.ParseExpression` | internal/cronengine/cronengine.go:72-110 | Five words, each parsed within the bounds of its field, or an error. |
| `CronSchedule.ScheduleMeans` | internal/cronengine/cronengine.go:72-110 | Every expression of five fields with any white space between them is refused exactly if a field is, and otherwise fires exactly at the minutes whose minute, hour, day, month and weekday its fields name. |
| `CronSchedule.FiveWords` | internal/cronengine/cronengine.go:73-76 | Any number of words but five is refused. |
| `CronSchedule.NextIsNamed` | internal/cronengine/cronengine.go:167-195 | So what the search returns for an expression text is the next minute that the text names. |

## Left out

- The goroutine worker pool, which works on stale copies of runs, and all blocking, cancellation, timers and channels.
- HTTP, gRPC, command line, dashboard, webhooks, notifications, metrics and event emission: input and output.
- The SQL store and its migrations: their meaning lies in the database.
- Cryptography and hashing; in the ring log the checksum is an arbitrary function.
- Deleting definitions and runs, listing and filtering in the memory store: they would only add easy members.
- WorkflowRuns.EveryRunIsSafe: definitions are assumed to have distinct step ids, which validation enforces but the store does not; for the others see `DuplicateNeverSucceeds`. Of the rest, retries with delay, lease expiry and step release are not modelled.
- WorkflowEngine.Store.CreateRun: keys are tuples of namespace and id instead of concatenated strings, so collisions of separators do not arise.
- WorkflowEngine.Engine.ExecuteLease: inputs, outputs and error texts of handlers are not modelled, only whether a handler exists and succeeds.
- GraphMutator.DAG.InlineSubDAG: nodes carry an id and dependencies; other node fields are copied unchanged by the code. The parent and the sub-DAG are different objects; the program blocks on its own lock if they are the same.
- GraphMutator.DAG.ExpandFanOut: the branch factory returns values, so a factory that hands out the same node twice, or a node that is already in the graph, is not captured.
- GraphMutator.DAG.Validate: the operations release their lock around it; calls that slip in there are not modelled.
- RemoveNode, AddEdge, GetNode, Clone and Diff of the graph mutator: they would only add easy members.
- Sorting.StringOrder: strings are sequences of characters, not bytes; ids that are not valid UTF-8 are not captured.
- JsonPatch.Apply: values are immutable, so update in place of shared maps and slices, and aliasing between patch and document, are not captured.
- JsonPatch.GetValue: array indices are unbounded decimals; the 64-bit limit of `strconv.Atoi` is not modelled.
- JsonLaws.RoundTripIff: arrays in which a compared position turns null or stops being null are outside its condition; for them `ArrayNullFlipsBalance` is only necessary, because later operations act on shifted positions.
- JsonDiff.DiffRecursive: numbers are reals and equality is structural, so NaN does not arise.
- LaneService.DRRScheduler.Enqueue: adding to the lane and counting the task are one step here and two locked steps in the program; a missing enqueue time is not filled in from the clock; lane ids are positions.
- LaneService.DRRScheduler.ScheduleNext: waiting for work on the condition variable becomes the result none; counters for statistics are left out.
- LaneFairness.Fair: costs of accepted tasks are bounded by the largest cost of the run, as in the property; 64-bit overflow of deficits is not modelled.
- DeadlockDetector.Detector.SelectVictim: which of several equally preferred tasks is chosen is not specified, as `sort.Slice` is not stable.
- DeadlockDetector.Detector.ResolveDeadlocks: the abort callback is the list of ids it is called with; it does not call back into the detector.
- CompactorStore.Store.Put: time stamps and table names are left out; the sequence counter does not wrap at 64 bits.
- Analyzer.FindCycles: reports carry the cycle instead of its message text, and telling reports apart by text is an arbitrary function of the path.
- Reachability.FindMissing: the message of a report is an arbitrary function of it.
- LoadBalancer.Balancer.Select: only the weighted strategy; connection counts and the other strategies are left out.
- SmoothRoundRobin.BlockExact: holds for a fixed healthy set from zero current weights; a change of the set in between leaves current weights as they are.
- Election.NoSplitTerm: terms do not wrap at 64 bits; candidates have distinct non-empty ids. Renewing and stepping down are split into their locked parts, and releases may come at any time.
- ElectionService.Candidate.TryCampaign: errors of other coordinators than the in-memory one do not occur.
- Lease extension (internal/fencing/lease.go) and storage statistics.
- RingBuffer.Cursor.TryNext: the frame guarantee holds while payloads are shorter than 2^32 bytes and fewer than 2^64 - 1 frames were appended; reads of a concurrently written buffer are not modelled.
- RingBuffer.LappedSkips: what a lapped cursor gets in the middle of a later frame depends on the payload bytes there, which may look like a frame; no condition on positions alone is exact.
- RingBuffer.Snapshot: takes a bound on the number of frames read, because over an overwritten buffer the end of the loop depends on stale bytes; what is returned then is not specified.
- CronNext.Next: UTC only; the given instant is represented by the minute that contains it; a field's bits are a set of numbers.
- CronField.ParseField: numbers are unbounded, so steps near 2^63, for which the loop counter would overflow, are not captured.
- The cron run loop, heap, overlap and missed-fire policies, and other time zones.
