# A verified model of DVC's core

DVC is a build system over a content-addressed store. This project models the parts of it whose
correctness is decided by code rather than by the libraries it calls, and proves what they
promise, for all inputs, all runs and all interleavings.

* **Reproduction.** `OutsTrie` and `BuildGraph` build the stage graph from path overlaps,
  `ActiveGraph` cuts it at frozen stages (`DepthFirst` says in which order), `Pipeline`
  linearises it by depth-first post-order (`Digraphs`, `Reversal`, `Orders`), and `Reproduce` runs, restores or skips each stage. `Files` and
  `Builds` say what a stage and a from-scratch build mean. The main theorem is `Engine.Repro`: a
  completed reproduction leaves the workspace a from-scratch build of the same pipeline leaves.
  Commands are deterministic functions of what their declared dependencies hold and only their
  declared outputs are used; lock and run-cache entries that exist beforehand are taken to be
  true past runs, and the model proves that reproduction, complete or failed, keeps them so.
  Frozen and data-source stages are sources.
* **Push, index and garbage collection.** `PushProtocol` is the thread pool as a state machine:
  uploads interleave freely and any set of them may fail. `Remote` is the remote with its index and local cache,
  `Objects` the used set with its children, `Collection` garbage collection; `RemoteRuns` puts
  them together to runs.
* **Remote existence query.** `RemoteQuery` holds the estimate from a truncated sample, the
  choice it makes, and the sharded traversal; `HexPrefixes` the partition behind the sharding.
* **Read/write lock.** `RwLock`: every edit of the lock file is one step, by any holder.
* **Merged tree walk.** `Trees` says what a union is; `TreeWalk` is the code that drives two
  stateful generators in lockstep; `Generators` are the two, and `OutputTrees` the trie of outputs
  that one of them fills on the way.
* **Ignore rules and the state table.** `GitIgnore` parses, re-bases and groups rules, `PatternFormat`
  says what the forms of rules mean, `Escapes` and
  `EscapeTexts` say what becomes of a backslash at the head of a rule, `Verdicts` what lists of
  re-based rules decide, `IgnoreFilter` is
  the lazily filled cache of merged rules, `StateTable` the bounded table of file hashes.

Code that updates objects in place is modelled by classes and methods whose contracts tie the new
state to a specification function; facts about those functions are lemmas beside them.

## Where the code does not do what one might expect

* Cutting the graph aborts when a stage is visited after it has been removed; exactly then
  (`ActiveGraph.CutCompletesIff`). Two frozen stages in a row abort it when only frozen stages
  depend on the second and nothing else depends on one of its dependencies
  (`ActiveGraph.FrozenChainAborts`, `FrozenChain.FrozenDefinitionsAbort`); so does a frozen stage that lists a before b, where a also
  depends on b and nothing else depends on either (`ActiveGraph.SharedDependencyAborts`). Listed
  the other way round the three complete (`ActiveGraph.ReversedTriangleCompletes`).
* A stage from which a dependency has been dropped, its command unchanged, counts as unchanged.
  Skipping it is right for every command that made its record true exactly when the record names
  no dependency beyond the declared ones (`Builds.SkippingIsSoundIff`); this is part of what
  "true record" means in the run loop, and every record the model writes has it.
* Reproducing a frozen stage records the workspace as if a run had produced it. The record is
  true exactly when it agrees with the entry it replaces (`Reproduce.VerifiedRecordIsTrueIff`). No
  other stage can be skipped or restored by it (`Reproduce.SavingSourceKeepsRecords`), but once
  unfrozen the stage itself is skipped by it, true or not (`Reproduce.UnfrozenIsSkipped`,
  `Reproduce.EditedOutputIsSkipped`).
* Restoring a stage that declares no outputs would raise an error; reproduction never attempts it
  (`Reproduce.AbortsOnlyUnrunnable`).
* For several targets the downstream pipeline can list a stage before its dependency
  (`Pipeline.DownstreamOrderedIff` says exactly when).
* The index survives other clients' deletions as long as they leave whole directories and the
  used set has a directory, since the index is then validated first
  (`Remote.Remote.ValidateIndex`). Without one, answers are as good as the index
  (`Remote.Remote.HashesExist`).
* The number that a push answers counts new directories that it has left out because a file of
  theirs is missing on both sides (`Remote.Remote.Push`).
* A nested repository that tracks no outputs disappears from the merged walk, directory and all:
  its outputs generator stops at once and ends the walk there (`Trees.WalkIsUnionIff`).
* Re-basing an ignore rule drops a backslash at its head. Before an ordinary character, as in
  `\#a`, that changes nothing; before a wildcard it does, as in `\*a` (`Escapes.EscapeIsLost`).
  `EscapeTexts.MeaningKeptIff` says by the text of the rule exactly when: backslashes pair up, so
  three of them before an ordinary character keep their meaning when one is dropped and two do
  not. With bracket expressions it depends on what these match
  (`Escapes.RebasingKeepsMeaningIff`). Meaning is that of the gitignore documentation, section
  "PATTERN FORMAT"; the pathspec library, which reads the re-based rules, is not part of this
  model, and it may read a leading backslash otherwise.
* A state table with a row for every storable inode could not be saved: its count has no stored
  form (`StateTable.State.Dump`).

## Model

| member | source | states |
|---|---|---|
| `Paths.OverlapIsPrefix` | dvc/path_info.py:13-22 | overlap is the symmetric prefix order: one path is a prefix of the other |
| `Paths.OverlapIsCommonDescendant` | dvc/path_info.py:70-77 | two paths overlap exactly when some path lies in both |
| `OutsTrie.BuildOutsTrie` | dvc/repo/trie.py:7-42 | accepts exactly the lists of outputs in which no two are equal or nested; the trie then holds exactly them; an error names a pair that really clashes |
| `OutsTrie.AddOut` | dvc/repo/trie.py:10-41 | one output is rejected exactly when it overlaps one seen before; the error names two equal, or an enclosing and an enclosed, output |
| `OutsTrie.AcceptanceIgnoresOrder` | dvc/repo/trie.py:7-42 | acceptance depends only on the bag of outputs, not on insertion order |
| `OutsTrie.LookupsAreOverlaps` | dvc/repo/graph.py:112-122 | the prefix lookup and the subtree lookup together find exactly the outputs that overlap a dependency |
| `OutsTrie.ShortestPrefix` | dvc/repo/graph.py:105-108 | no key at or above the path when nothing is found, otherwise the value of such a key |
| `BuildGraph.BuildGraph` | dvc/repo/graph.py:55-125 | succeeds exactly when outputs are disjoint, no stage file lies in an output, and stages do not depend on themselves through each other; edges are exactly the dependency/output overlaps; distinct stages become nodes in their order, and the edges of a stage come once each and as its dependencies do; each error is true |
| `BuildGraph.AddStageEdges` | dvc/repo/graph.py:112-122 | a stage gets an edge to exactly the stages it depends on, and no other stage changes |
| `BuildGraph.OverlappingIsPairwise` | dvc/repo/graph.py:112-122 | trie lookups for a dependency give the stages a brute-force pairwise overlap test gives |
| `BuildGraph.FindStagePathClash` | dvc/repo/graph.py:105-108 | finds a stage whose file is, or lies in, some output exactly when there is one |
| `BuildGraph.CheckAcyclic` | dvc/repo/graph.py:11-26 | reports exactly whether the graph has a cycle |
| `BuildGraph.CyclesAreDependencyCycles` | dvc/repo/graph.py:11-26 | cycles of the graph are exactly chains of stages depending on each other back to the first |
| `Digraphs.PostOrderFrom` | dvc/repo/reproduce.py:207-230 | a depth-first post-order from a stage of an acyclic graph lists exactly what it reaches, once each, dependencies first |
| `Digraphs.PostOrderOrdered` | dvc/repo/reproduce.py:229-230 | without cycles everything a finished stage has an edge to was finished before it |
| `Digraphs.PostOrderShape` | dvc/repo/reproduce.py:229-230 | a traversal lists each stage once, nothing already seen, and leaves no successor behind |
| `Digraphs.AcyclicIffOrdered` | dvc/repo/graph.py:11-26 | a graph is acyclic exactly when its post-order puts every successor first |
| `Reversal.ReverseReaches` | dvc/repo/reproduce.py:225-227 | reachability in the reversed graph is reachability backwards |
| `Reversal.PredecessorsInOrder` | dvc/repo/reproduce.py:225-227 | the edges of a reversed stage come in the order of the nodes |
| `Reversal.ReverseAcyclic` | dvc/repo/reproduce.py:225-227 | reversing keeps a graph acyclic |
| `Pipeline.GetPipeline` | dvc/repo/reproduce.py:208-237 | fails exactly for a target outside the graph; otherwise the first occurrences of what the targets contribute |
| `Pipeline.UpstreamPipeline` | dvc/repo/reproduce.py:229-237 | for any targets: no duplicates, exactly the stages the targets reach, every dependency before its dependents |
| `Pipeline.DownstreamPipeline` | dvc/repo/reproduce.py:216-228 | for one target: exactly it and its transitive dependents, in dependency order |
| `Pipeline.DownstreamOrderedIff` | dvc/repo/reproduce.py:216-237 | for several targets the downstream order is a dependency order exactly when each target either depends on an earlier one or shares no dependents with the earlier ones |
| `ActiveGraph.GetActiveGraph` | dvc/repo/reproduce.py:57-76 | the in-place cut is the cut the facts below are proved about, aborting when an absent stage is removed |
| `DepthFirst.PreOrderIff` | dvc/repo/reproduce.py:67 | the visits below a frozen stage come in the one depth-first order: next is the first new dependency of the stage met last, or else of the one met before it, and so on |
| `ActiveGraph.CompletedCut` | dvc/repo/reproduce.py:57-76 | after a completed cut frozen stages have no edges, other kept stages keep all edges and their targets, and every removed stage was reachable from a frozen one |
| `ActiveGraph.FrozenOnlyIsRemoved` | dvc/repo/reproduce.py:57-76 | a completed cut removes every stage that only frozen stages depend on |
| `ActiveGraph.CutCompletesIff` | dvc/repo/reproduce.py:57-76 | the cut completes exactly when no stage is visited after it is gone, visits and gone stages being computed from the graph alone, and then removes exactly the stages that are gone |
| `ActiveGraph.CutAtLeaves` | dvc/repo/reproduce.py:60-76 | from any intermediate graph the remaining turns complete, and leave what they leave, as the visits say |
| `ActiveGraph.UnusedIffFreed` | dvc/repo/reproduce.py:70-74 | a stage has no incoming edge left exactly when each dependent is gone or a frozen stage whose turn has come |
| `ActiveGraph.MetOnceCompletes` | dvc/repo/reproduce.py:57-76 | the cut completes when no stage is visited twice |
| `ActiveGraph.FrozenChainAborts` | dvc/repo/reproduce.py:57-76 | in any graph, a frozen stage used by frozen stages only, with a dependency nothing else uses, aborts the cut |
| `ActiveGraph.SharedDependencyAborts` | dvc/repo/reproduce.py:64-74 | in any graph, a frozen stage with dependencies a and later b, where a depends on b and nothing else uses either, aborts the cut |
| `ActiveGraph.TriangleAborts` | dvc/repo/reproduce.py:64-74 | such a graph can be free of cycles: three stages whose cut aborts |
| `FrozenChain.FrozenDefinitionsAbort` | dvc/repo/reproduce.py:57-76 | three stage definitions in a row, the later two frozen, whose graph cannot be cut however its edges are listed |
| `FrozenChain.FrozenDefinitionsAccepted` | dvc/repo/graph.py:55-125 | these definitions pass all checks on outputs, stage files and cycles |
| `ActiveGraph.ReversedTriangleCompletes` | dvc/repo/reproduce.py:64-74 | with the dependencies listed the other way round the same three stages complete the cut |
| `Builds.RecordedOutputsAreRun` | dvc/stage/cache.py:169-199 | outputs recorded by a true run on these dependency contents are what a run here would produce |
| `Builds.MatchIsSound` | dvc/stage/__init__.py:254-316 | leaving an unchanged stage alone is a run when its record is true and names no dependency beyond the declared ones, whatever outputs it still names |
| `Builds.SkippingIsSoundIff` | dvc/stage/__init__.py:254-316 | leaving an unchanged stage alone is what running it would do, for every command that makes its record true, exactly when the record, one of some past run, names no dependency beyond the declared ones |
| `Builds.ExtraDependencyBreaks` | dvc/stage/__init__.py:272-283 | for a record with a dependency that is no longer declared, a command that makes the record true and for which skipping is wrong |
| `Builds.RunStageStripped` | dvc/stage/__init__.py:318-327 | a run succeeds or fails, and gives the same, whether or not its own and later outputs were removed first |
| `Builds.CleanStep` | dvc/repo/reproduce.py:174-197 | one loop step extends the agreement with the from-scratch build by one stage, whether it was skipped, restored or run |
| `Builds.FailingStep` | dvc/repo/reproduce.py:198-201 | a stage that cannot be run where the loop stands cannot be run in the from-scratch build either |
| `Builds.IdleRunIff` | dvc/stage/__init__.py:488-516 | running a stage changes nothing exactly when its dependencies are there, the command accepts what they hold, and the outputs are there and hold file by file what it makes |
| `Builds.CleanBuildIff` | dvc/repo/reproduce.py:128-205 | a from-scratch build leaves the one workspace in which every stage with a command that is not frozen is so, and all files outside the outputs of these stages are as before |
| `Reproduce.UnchangedMatches` | dvc/stage/__init__.py:254-316 | a stage reported unchanged has the recorded command, and every dependency and output exists with the recorded content |
| `Reproduce.SkippedIsRun` | dvc/stage/__init__.py:348-356 | skipping an unchanged stage equals running it |
| `Reproduce.SnapshotIsTrue` | dvc/stage/__init__.py:434-451 | what is saved after a run is a true record with exactly the declared dependencies |
| `Reproduce.VerifiedRecordIsTrueIff` | dvc/stage/__init__.py:488-516 | what verifying a frozen stage saves is true for every command that made the replaced entry true exactly when it agrees with that entry: same command and dependencies, and the entry says, by an output recorded at or above, what each output holds |
| `Reproduce.DisagreeingIsFalse` | dvc/stage/__init__.py:488-516 | where it does not agree, a command that made the old entry true and not the new one |
| `Reproduce.RecordIsRunIff` | dvc/stage/__init__.py:434-451 | the record of a workspace is true exactly when running the stage would change nothing |
| `Reproduce.UnfrozenIsSkipped` | dvc/stage/__init__.py:305-316 | once unfrozen, a verified stage is skipped, rightly so exactly when the record is true |
| `Reproduce.EditedOutputIsSkipped` | dvc/stage/__init__.py:488-516 | freezing, editing the output, reproducing and unfreezing leaves a stage unchanged that a run would change |
| `Reproduce.SavingRunKeepsRecords` | dvc/stage/cache.py:138-167 | saving a stage that has been run keeps all lock and run-cache records true |
| `Reproduce.SavingSourceKeepsRecords` | dvc/stage/cache.py:138-167 | saving a frozen or data stage cannot falsify a record another stage is skipped or restored by |
| `Reproduce.RunProduces` | dvc/stage/__init__.py:504-516 | removing outputs and executing is a from-scratch run exactly when no dependency or output is missing afterwards |
| `Reproduce.AbortsOnlyUnrunnable` | dvc/stage/cache.py:169-187 | the restoration that would raise an error is never attempted for a changed stage that could be run |
| `Reproduce.SnapshotSettled` | dvc/stage/__init__.py:305-316 | a stage just saved and committed is unchanged |
| `Reproduce.StillSettled` | dvc/stage/__init__.py:305-316 | an unchanged stage stays unchanged when another stage writes neither its dependencies nor its outputs |
| `Reproduce.Repo.RemoveOuts` | dvc/stage/__init__.py:318-327 | removes exactly the files under the outputs |
| `Reproduce.Repo.CheckoutOuts` | dvc/stage/__init__.py:524-543 | puts the recorded content at every output and touches nothing else |
| `Reproduce.Repo.FindRun` | dvc/stage/cache.py:169-187 | finds one of the records that may serve, unless there is none, and what it finds is a true run of this stage on the present dependencies; says exactly when it aborts |
| `Reproduce.Repo.Restore` | dvc/stage/cache.py:169-199 | a restored stage is left exactly as a run would leave it, otherwise the workspace is unchanged; a record is restored only with all outputs cached, and passed over only when some record lacks one |
| `Reproduce.Repo.Save` | dvc/stage/__init__.py:434-451 | records the workspace in the lock file and the run cache; the objects cached are exactly those of the outputs: cached ones when committing, the others when a run-cache entry is made |
| `Reproduce.Repo.Execute` | dvc/stage/run.py:134-145 | restoring or executing is a from-scratch run exactly when nothing is missing afterwards, and fails only where such a run would fail or a restoration aborts |
| `Reproduce.Repo.Run` | dvc/stage/__init__.py:488-516 | a completed run leaves the workspace as a from-scratch run of the stage would (source stages: untouched), keeps records true and records the result; it fails only where that run would fail, a restoration aborts, or a source is missing |
| `Reproduce.Repo.Reproduce` | dvc/stage/__init__.py:347-370 | skips exactly an unforced unchanged stage, changing nothing; skipped or not, the workspace is what a run leaves, and the stage is then unchanged; it fails only where a from-scratch run of the stage fails or a source is missing |
| `Reproduce.Repo.ReproduceStages` | dvc/repo/reproduce.py:128-205 | a completed loop leaves the workspace equal to a from-scratch build of the pipeline, whatever was skipped, restored or run. With the states before each step: a stage is among the unchanged exactly when it was not forced there and counts as unchanged there, and otherwise among the reproduced, both in pipeline order; forced means by the flag, or with force-downstream by an earlier stage reproduced. The loop stops at the first stage that cannot be reproduced, with no record of it; then the from-scratch build fails too, or a source is missing. Records stay true |
| `Reproduce.SecondRunIsIdle` | dvc/repo/reproduce.py:174-205 | after a completed loop that committed, an unforced one over a pipeline without stages that always run reproduces nothing and changes nothing |
| `Reproduce.UnchangedIff` | dvc/stage/__init__.py:254-316 | a recorded stage counts as unchanged exactly when its command is the recorded one, it is frozen or neither marked as always changed nor a command without dependencies, its dependencies (unless frozen) and outputs hold file by file what was recorded, and the cache has the objects it is to hold |
| `Reproduce.UnrecordedIff` | dvc/stage/__init__.py:254-316 | a stage without a record counts as unchanged only if it has no outputs, and unless frozen neither dependencies nor a command that always runs |
| `Reproduce.SavedRunsHold` | dvc/stage/cache.py:138-167 | saving adds exactly one record to the run cache, under the command, dependency contents and output paths of the run, and none for stages that always run or lack a command, dependencies or outputs |
| `Reproduce.CandidatesIff` | dvc/stage/cache.py:169-187 | a stage may be restored from exactly these records: its own if it is of the present dependencies and names all outputs, otherwise those of the run cache for its command, present dependency contents and output paths |
| `Reproduce.SavedIsFound` | dvc/stage/cache.py:138-187 | a saved run is found again as soon as the dependencies hold what they held then |
| `Engine.PipelineReady` | dvc/repo/reproduce.py:81-125 | on an accepted graph cut at frozen stages, the pipeline of any targets never writes what an earlier or the same stage reads, and no outputs overlap |
| `Engine.Prepare` | dvc/repo/reproduce.py:108-125 | the pipeline is exactly what the targets reach in the cut graph; each error occurs exactly for its cause: outputs, stage files or cycles, a cut that meets a gone stage, a target that is not left |
| `Engine.Repro` | dvc/repo/reproduce.py:81-125 | end to end: from stage definitions, a completed reproduction of any targets goes through exactly what they reach in the cut graph, answers the reproduced stages in order, and leaves every stage with a command that is not frozen up to date and all other files untouched, as a from-scratch build would; a failed one names a stage of the pipeline, and no workspace is such a build or a source is missing; any earlier error has exactly its cause and changes nothing |
| `HexPrefixes.FromToHex` | dvc/cache/base.py:767-774 | zero-padded hexadecimal numerals are read back to their value |
| `HexPrefixes.ToFromHex` | dvc/cache/base.py:767-774 | every string of lowercase hex digits is the numeral of its value |
| `HexPrefixes.PrefixesPartition` | dvc/cache/base.py:764-774 | for every prefix length of at least 2 each hash begins with exactly one of the all-zero prefix and the generated prefixes |
| `RemoteQuery.HashesWithLimit` | dvc/cache/base.py:681-691 | yields a prefix of the listing: all of it, or the first hashes up to and including the one that exceeds the limit |
| `RemoteQuery.PrefersLookupsIff` | dvc/cache/base.py:911-922 | in whole numbers: lookups are preferred when the queried hashes, a page each, are fewer than the hashes of the remote, weighted above the threshold size |
| `RemoteQuery.MaxEstimationIff` | dvc/cache/base.py:693-700 | in whole numbers: a size is considered for a traversal up to the threshold, and up to a page for each queried hash, weighted |
| `RemoteQuery.OversizeMeansLookups` | dvc/cache/base.py:693-700 | a size above the largest considered one always makes per-object lookups preferred, for all tree constants |
| `RemoteQuery.SampleIsOversize` | dvc/cache/base.py:722-735 | a sample cut by the limit gives an estimate that rules a traversal out |
| `RemoteQuery.CutChangesNothing` | dvc/cache/base.py:722-735 | a cut sample leads to the choice that the complete one would have led to |
| `RemoteQuery.EstimateRemoteSize` | dvc/cache/base.py:702-735 | the sample is everything under the zero prefix, or the estimate makes lookups preferred |
| `RemoteQuery.TraversalIsListing` | dvc/cache/base.py:764-794 | listing by all prefixes yields every stored hash exactly as often as a plain listing |
| `RemoteQuery.ListHashesTraverse` | dvc/cache/base.py:737-794 | from a complete sample every stored hash is yielded exactly once, in either branch |
| `RemoteQuery.All` | dvc/cache/base.py:796-814 | every stored hash exactly once |
| `RemoteQuery.ListHashesExists` | dvc/cache/base.py:839-864 | exactly the queried hashes that are stored |
| `RemoteQuery.HashesExist` | dvc/cache/base.py:866-937 | exactly the queried hashes that are stored, each once, in every branch; the remote is traversed exactly when it can be, not one hash is asked for, and the weighted size that the complete sample suggests is not more than a page for each queried hash |
| `Objects.MergeKeys` | dvc/cache/__init__.py:104-110 | updating an item unites the keys below it |
| `Objects.MergeNames` | dvc/cache/__init__.py:104-110 | updating an item unites the names at every level below it; only those of the item itself get the suffix |
| `Objects.MergeAllNames` | dvc/cache/__init__.py:145-152 | every item of another used set updates the one of its hash, names and all |
| `Objects.WithChildrenNames` | dvc/cache/__init__.py:132-140 | recording children gives the suffix to the names of the children and keeps those of the directory |
| `Objects.MergeComplete` | dvc/cache/__init__.py:104-110 | updating keeps the recorded children of every directory complete |
| `Objects.UsedSetClosed` | dvc/cache/__init__.py:154-160 | a used set with complete children is closed: it holds every file of every directory it holds |
| `Objects.WithChildrenComplete` | dvc/cache/__init__.py:132-140 | recording a child cache keeps the used set complete if the cache holds all of the directory |
| `Objects.NamedCache.Add` | dvc/cache/__init__.py:128-130 | adds one key and a name at it; all other names stay |
| `Objects.NamedCache.Update` | dvc/cache/__init__.py:145-152 | the used set becomes the union and stays complete |
| `Objects.NamedCache.AddChildCache` | dvc/cache/__init__.py:132-140 | the used set gains the directory and everything in the child cache, and stays complete if that is all of the directory |
| `PushProtocol.StepKeepsSafe` | dvc/remote/base.py:346-395 | every step of every worker, failing or not, keeps each directory object on the remote together with all its files |
| `PushProtocol.PushSafe` | dvc/remote/base.py:416-428 | so does every run, under every interleaving and every set of failing uploads |
| `PushProtocol.FinishedDirIsComplete` | dvc/remote/base.py:416-428 | when a directory object is uploaded all its files are already there |
| `PushProtocol.StepDecreases` | dvc/remote/base.py:346-395 | a measure falls with every step |
| `PushProtocol.RunsAreBounded` | dvc/remote/base.py:346-395 | no run is longer than the measure of its start |
| `PushProtocol.NeverStuck` | dvc/remote/base.py:346-395 | with any number of workers, while a task is unfinished some step is possible |
| `PushProtocol.WorkersSuffice` | dvc/remote/base.py:346 | no step takes up more tasks than there are workers |
| `PushProtocol.MaximalRunsComplete` | dvc/remote/base.py:390-395 | a run that cannot go on has finished every task |
| `PushProtocol.MaximalRunsAgree` | dvc/remote/base.py:346-395 | all runs to the end leave the same remote, whatever the schedule and the number of workers |
| `PushProtocol.FailsAreMissing` | dvc/remote/base.py:390-395 | the failures counted are as many as the objects to be uploaded that are not on the remote afterwards |
| `PushProtocol.RunPool` | dvc/remote/base.py:346-395 | under an arbitrary schedule the pool ends, with every task done, the remote closed, and exactly those objects added whose upload does not fail, nor that of a file waited for |
| `Collection.EveryPrefixIsClosed` | dvc/cache/base.py:819-837 | if store and used set are closed, the store is closed after every single removal |
| `Collection.Gc` | dvc/cache/base.py:819-837 | leaves exactly the stored hashes that are used and reports exactly whether something was removed; what is removed goes directories first, and after each single removal the store is closed |
| `Remote.FlattenIsFaithful` | dvc/remote/base.py:200-213 | the flattened used set lists each directory with exactly its files and loses no key |
| `Remote.GroupedIsSound` | dvc/remote/base.py:223-258 | an index of whole directories that are all on a closed remote names only what the remote holds |
| `Remote.IndexedWhole` | dvc/remote/index.py:193-202 | an indexed directory is indexed with all its files |
| `Remote.TasksCover` | dvc/remote/base.py:357-389 | the submitted tasks upload, or find on the remote, every file of every directory task before it |
| `Remote.TasksDeliver` | dvc/remote/base.py:357-395 | of the planned files those are delivered that do not fail, and of the planned directories those that do not fail and list no failing new file |
| `Remote.DownloadIsComplete` | dvc/remote/base.py:270-294 | true statuses select for download exactly what the remote has and the local cache lacks |
| `Remote.Remote.UpdateIndex` | dvc/remote/index.py:193-202 | adds a directory and its files to the index, keeping it a union of whole directories; rows that are there stay as they are |
| `Remote.Remote.IndexPushed` | dvc/remote/base.py:403-412 | exactly the pushed directories and their files join the index |
| `Remote.Remote.ValidateIndex` | dvc/remote/base.py:223-242 | drops the index exactly when it names something the remote lacks, whatever other clients did to a remote they kept closed |
| `Remote.Remote.IndexedDirHashes` | dvc/remote/base.py:223-258 | exactly the used directories that are on the remote, with their files, all of them indexed; the index becomes or stays sound |
| `Remote.Remote.HashesExist` | dvc/remote/base.py:123-132 | membership answered through the index is right exactly when the index is right about the queried hashes |
| `Remote.Remote.CollectRemote` | dvc/remote/base.py:165-178 | what exists on the remote of the used set: as direct membership gives it, or, without directories to validate it by, as the index adds to it; what is indexed afterwards |
| `Remote.Remote.Status` | dvc/remote/base.py:134-221 | outside the download shortcut every status is the one that looking up what the remote is believed to hold gives, and that is what it holds when the used set has a directory or the index is sound; a status never falsifies the index |
| `Remote.Remote.Plan` | dvc/remote/base.py:327-389 | what is uploaded: exactly the new files and the new directories without files missing on both sides; the total counts all new directories |
| `Remote.Remote.Push` | dvc/remote/base.py:296-414 | with `failing` the uploads that fail: the remote gains exactly the new files that do not fail and the new directories, without files missing on both sides, that neither fail nor list a failing new file. The push fails exactly when an upload is missing afterwards, and counts those; otherwise it answers the number of new files and new directories and indexes the uploaded directories with their files. The remote stays closed and the index sound |
| `Remote.Remote.PlanDownload` | dvc/remote/base.py:327-353 | wants exactly the used objects the remote has and the local cache lacks |
| `Remote.Remote.Pull` | dvc/remote/base.py:296-414 | the local cache gains exactly what is wanted and did not fail; the answer counts what failed, and a failure drops the index, or else what was wanted |
| `Remote.Remote.GcRemote` | dvc/remote/base.py:93-100 | leaves exactly the used objects, closed, and drops the index exactly when something was removed |
| `RemoteRuns.Run` | dvc/remote/base.py:93-464 | after any run of status, push, pull and gc, with other clients changing the remote in between, the remote is closed, and the index is sound unless others changed it since it was last validated |
| `RemoteRuns.RunThenStatus` | dvc/remote/base.py:134-186 | after such a run a status is what looking every hash up would give |
| `RemoteRuns.AloneIsTrusted` | dvc/remote/base.py:93-464 | without other clients every run from a sound index can be trusted |
| `RwLock.AcquireRead` | dvc/rwlock.py:86-99 | adds the read locks not yet held, reports exactly those, and touches no other holder |
| `RwLock.AcquireWrite` | dvc/rwlock.py:102-114 | adds the write locks not yet held, reports exactly those, and touches no other holder |
| `RwLock.ReleaseWrite` | dvc/rwlock.py:117-124 | the assertions hold exactly when the changes are distinct and held; then just these are given back |
| `RwLock.ReleaseRead` | dvc/rwlock.py:127-136 | the same for read locks |
| `RwLock.LockStore.Enter` | dvc/rwlock.py:157-165 | refused exactly when another holder writes at, above or below a path, or reads at, above or below one to be written, and then the lock file is unchanged; otherwise the holder gains the paths and nobody else changes |
| `RwLock.LockStore.Leave` | dvc/rwlock.py:170-172 | succeeds exactly when all assertions hold, and otherwise leaves the lock file as it is; the holder loses just the changes of the bracket |
| `RwLock.EnteredExclusive` | dvc/rwlock.py:62-83 | a granted acquisition keeps writers apart from all overlapping readers and writers of others |
| `RwLock.EmptyLockInv` | dvc/rwlock.py:43-44 | an empty lock file satisfies the invariant |
| `RwLock.StepKeepsInv` | dvc/rwlock.py:139-172 | every enter or leave by anyone keeps the invariant, leaves other holders alone, and keeps what a holder would hold with all brackets closed |
| `RwLock.RunsAreSafe` | dvc/rwlock.py:139-172 | in every reachable state writers exclude others on overlapping paths, and no assertion of the next release can fail |
| `RwLock.BracketsRestore` | dvc/rwlock.py:139-172 | leaving a bracket restores exactly what the holder held on entry, whatever happened in between |
| `Trees.TrackedAt` | dvc/tree/repo.py:238-245 | what is walked by the outputs generator alone is the tree of outputs |
| `Trees.WalkIsUnion` | dvc/tree/repo.py:263-309 | without nested repositories the walk lists, at every path, the union of what the two trees have there |
| `Trees.UnionByName` | dvc/tree/repo.py:263-309 | name by name: a directory is listed where it is on disk or tracked; where it is on disk, the files on disk and the tracked ones, without `Dvcfile`, `dvc.yaml` and names ending in `.dvc` unless these are asked for; elsewhere all tracked files |
| `Trees.ListsFilesAt` | dvc/tree/repo.py:282-286 | the same for every directory of a walk that enters nested repositories |
| `Trees.WalkIsUnionIff` | dvc/tree/repo.py:247-309 | with nested repositories the walk lists the union of trees everywhere exactly when every nested repository it would enter tracks some output |
| `Trees.UntrackedSubrepoIsMissing` | dvc/tree/repo.py:264-271 | a nested repository that tracks nothing is missing from the walk |
| `OutputTrees.LazyListing` | dvc/tree/dvc.py:169-185 | a directory lists the same whether the directory outputs below it have been filled in or not |
| `OutputTrees.FilesAreTracked` | dvc/tree/dvc.py:176-185 | the files listed at a directory are exactly the tracked ones: file outputs and files of directory outputs |
| `OutputTrees.DirsAreTracked` | dvc/tree/dvc.py:169-185 | the subdirectories listed are exactly the directory outputs there and the names under which outputs or their files lie further down |
| `OutputTrees.AddDirBetween` | dvc/tree/dvc.py:159-167 | filling in an output adds just its files |
| `Generators.OutputWalker.FillTo` | dvc/tree/dvc.py:211-216 | a walk that starts inside directory outputs fills these in first |
| `Generators.OutputWalker.Visit` | dvc/tree/dvc.py:169-189 | lists one directory of the completely filled tree, filling in at most the output it is |
| `Generators.OutputWalker.Next` | dvc/tree/dvc.py:169-194 | the generator of outputs resumes with the list it yielded last as the consumer left it, and yields the next directory of the completely filled tree although the trie is filled on the way |
| `Generators.OutputWalker.Rewrite` | dvc/tree/repo.py:295-297 | what is then pending is what the consumer kept, in its order |
| `Generators.Walker.Next` | dvc/tree/repo.py:263-271 | the generator of directories on disk yields the first directory pending, after the list it yielded last as the consumer left it |
| `TreeWalk.DvcWalk` | dvc/tree/repo.py:238-245 | yields exactly one subtree, each directory once, and advances the generator by just that subtree |
| `TreeWalk.Walk` | dvc/tree/repo.py:263-309 | yields each directory of the view once, before those below it, with its listing, and in it, where the directory is on disk, a file exactly when it is on disk or tracked there, and is no DVC-file unless these are asked for; both generators start at the same directory and are each advanced by exactly their own subtree |
| `TreeWalk.Align` | dvc/tree/repo.py:290-298 | both yielded lists are rewritten in one order, so both generators descend into shared directories together; nested repositories are left out of the one on disk |
| `TreeWalk.WalkBelow` | dvc/tree/repo.py:300-309 | the aligned generators stay in step through all subdirectories |
| `TreeWalk.WalkChild` | dvc/tree/repo.py:300-309 | each branch, nested repository, shared, outputs only or disk only, consumes its own subtree of the right generators |
| `TreeWalk.SubrepoWalk` | dvc/tree/repo.py:247-261 | a nested repository is walked with its own outputs |
| `GitIgnore.RebasedParse` | dvc/pathspec_math.py:39-55 | re-basing puts the directory in front of the components of a rule and keeps its sign and trailing slash |
| `GitIgnore.BelowMatches` | dvc/pathspec_math.py:44-53 | a rule with a directory in front of its components matches, below the directory, exactly what the rule matched |
| `GitIgnore.ChangeRuleKeepsMeaning` | dvc/pathspec_math.py:39-55 | a re-based rule whose core does not start with a backslash matches `rel/p` exactly when the rule matched `p`, matches nothing outside `rel`, and keeps its sign |
| `EscapeTexts.MeaningKeptIff` | dvc/pathspec_math.py:23-55 | read off the text: a rule without bracket expressions or a backslash at an end keeps its meaning for all paths exactly when it does not start with a backslash it needs, that is one before an odd number of backslashes, or before an even number followed by a wildcard or nothing, in a rule without empty components |
| `EscapeTexts.SatisfiableText` | dvc/pathspec_math.py:23-55 | every component of such a rule matches some name unless one is empty |
| `EscapeTexts.ReadableMatches` | dvc/pathspec_math.py:39-55 | a name that a pattern without bracket expressions matches |
| `EscapeTexts.AltersIsMatters` | dvc/pathspec_math.py:23-26 | whether a dropped backslash matters is decided by the text, unless a bracket opens |
| `Escapes.RebasingKeepsMeaningIff` | dvc/pathspec_math.py:23-55 | for every rule but blanks, comments and a bare slash, brackets included: re-basing keeps the meaning for all paths exactly when it drops no backslash that matters, or some component of the rule matches no name |
| `Escapes.CanMatchIff` | dvc/pathspec_math.py:39-55 | a rule that starts with a backslash, or its re-based form, matches something below the directory exactly when each component matches some name |
| `Escapes.NotAltered` | dvc/pathspec_math.py:23-26 | a backslash that does not matter can be dropped from a pattern for every name |
| `Escapes.Altered` | dvc/pathspec_math.py:23-26 | a name that tells the two patterns apart, when the backslash matters |
| `Escapes.EscapedRebase` | dvc/pathspec_math.py:39-55 | re-basing a rule that starts with a backslash: the directory in front, the backslash gone, nothing else changed |
| `Escapes.LostPath` | dvc/pathspec_math.py:23-55 | when a backslash that matters is dropped, a path that only one of the rule and its re-based form matches |
| `Escapes.LoneBackslash` | dvc/pathspec_math.py:23-55 | a lone backslash matches nothing, but its re-based form does |
| `Escapes.EscapeIsLost` | dvc/pathspec_math.py:23-26 | the rule for a file named `*a` does not match `xa`; once re-based it does |
| `Escapes.PlainNamesAreLiteral` | dvc/pathspec_math.py:39-55 | directory names without wildcards match themselves only |
| `Escapes.WildReadsWildcards` | dvc/pathspec_math.py:39-55 | there is a glob that reads patterns as assumed |
| `Verdicts.TakenOverMatches` | dvc/pathspec_math.py:39-55 | a re-based rule that starts with no backslash, or with one that does not matter, matches `rel/p` exactly when the rule matched `p`, matches nothing outside `rel`, and keeps its sign |
| `Verdicts.RebasedLastMatch` | dvc/pathspec_math.py:58-68 | a re-based list of such rules has the verdict of the original below the directory and none elsewhere |
| `Verdicts.MergedVerdict` | dvc/pathspec_math.py:71-93 | the merged list gives the child directory's verdict where it has one, otherwise the outer verdict |
| `GitIgnore.GroupsDecideLikeRules` | dvc/ignore.py:38-49 | grouping consecutive rules of one sign into alternations decides like last-match-wins over single rules |
| `GitIgnore.Ignores` | dvc/ignore.py:100-111 | the loop over groups ignores a path exactly when the last matching single rule says so |
| `PatternFormat.StripTrims` | dvc/ignore.py:64-67 | a rule is the text without blanks at its ends, and nothing else is taken off |
| `PatternFormat.NegatedRule` | dvc/pathspec_math.py:15-16 | a leading exclamation mark turns the verdict of a rule round and changes nothing else |
| `PatternFormat.NameRule` | dvc/ignore.py:38-49 | a name matches a component of the path at any level; with a trailing slash it has to be a directory |
| `PatternFormat.AnchoredRule` | dvc/ignore.py:230-251 | with a leading slash a name matches the first component only |
| `PatternFormat.PathRule` | dvc/ignore.py:38-49 | names between slashes match one after the other from the first component on |
| `PatternFormat.BelowRule` | dvc/ignore.py:38-49 | a name and `/**` matches all that is below it, and not the directory |
| `PatternFormat.BetweenRule` | dvc/ignore.py:38-49 | `/**/` stands for any number of directories between two names |
| `IgnoreFilter.FillKeepsMerged` | dvc/ignore.py:200-228 | filling in a directory below a cached one keeps the cache ancestor-closed and every list equal to merging from the root |
| `IgnoreFilter.MergedRulesAreNearest` | dvc/ignore.py:200-228 | the merged list decides like the nearest enclosing directory that has a rule for the path |
| `IgnoreFilter.FileRulesByLine` | dvc/ignore.py:59-68 | the rules of an ignore file are its lines that are neither blank nor comments, stripped: all of them and in the order of the file, by positions |
| `IgnoreFilter.LastLineDecides` | dvc/ignore.py:59-111 | of the lines of an ignore file the last that matches decides, by its sign |
| `IgnoreFilter.SubrepoRulesByName` | dvc/ignore.py:230-251 | each nested repository has one rule, its name between slashes |
| `IgnoreFilter.NestedRepositoryIgnored` | dvc/ignore.py:230-251 | a nested repository is ignored from the directory it is in, whatever the ignore files say |
| `IgnoreFilter.DefaultsIgnore` | dvc/ignore.py:189-195 | without ignore files exactly the directories `.hg`, `.git` and `.dvc`, at every level, are ignored with all that is below them |
| `IgnoreFilter.IgnoreCache.constructor` | dvc/ignore.py:186-198 | a new cache is right for the root |
| `IgnoreFilter.IgnoreCache.LongestPrefix` | dvc/ignore.py:261-268 | the deepest cached directory at or above the given one |
| `IgnoreFilter.IgnoreCache.Update` | dvc/ignore.py:200-228 | one directory gets the rules above it, its own file's unless that is ignored, and those hiding nested repositories |
| `IgnoreFilter.IgnoreCache.UpdateSubrepos` | dvc/ignore.py:230-251 | appends one rule per nested repository |
| `IgnoreFilter.IgnoreCache.GetRules` | dvc/ignore.py:261-283 | whatever was asked before, the rules are the ones merged from the root down, and the cache stays right; see FileRulesByLine for what an ignore file adds |
| `IgnoreFilter.IgnoreCache.IsIgnored` | dvc/ignore.py:285-293 | a path is ignored exactly when the last matching rule merged from the root says so; if a line of the ignore file beside it matches and no later line or nested repository does, then exactly when that line does not start with an exclamation mark |
| `StateTable.ToSqlite` | dvc/state.py:180-190 | defined exactly for 0 up to 2^64-3; the stored form is read back to the number |
| `StateTable.KeysAreInodes` | dvc/state.py:180-198 | stored forms and inodes correspond one to one; exactly the signed integers above -(2^63-1) are stored forms |
| `StateTable.EvictionSize` | dvc/state.py:302-310 | at least the requested number of rows goes, exactly that many when no two rows are of one age |
| `StateTable.EvictedAreOldest` | dvc/state.py:304-310 | a row goes exactly when fewer than that many rows are strictly older, however ties are ordered |
| `StateTable.SurvivorsAreNewer` | dvc/state.py:304-310 | every survivor is strictly newer than every evicted row |
| `StateTable.OrderByTimestamp` | dvc/state.py:304-307 | all rows once each, oldest first |
| `StateTable.Quota` | dvc/state.py:303 | the additional share deleted is the row limit times the quota by 100, rounded down |
| `StateTable.State.Load` | dvc/state.py:247-277 | a table of this version is opened with every row and its count; a missing or damaged file and an older version give an empty table; a newer version is refused; the invariant holds in each case |
| `StateTable.State.Save` | dvc/state.py:400-424 | afterwards this inode has the saved record and all other inodes the record they had; refused exactly for an inode that cannot be stored |
| `StateTable.State.Get` | dvc/state.py:426-458 | a hash is returned exactly when the row has the file's mtime and size, and it is the one last saved for them; only that row's age changes; refused exactly for an inode that cannot be stored |
| `StateTable.State.Dump` | dvc/state.py:285-332 | the stored count is the number of rows; a clean-up, made exactly when there are more rows than the limit, keeps exactly the rows with enough older ones, at most the limit less quota per cent of it, rounded down, and exactly that many when no two rows are of one age |

## Left out

- Downloading for import stages, repository dependencies and parameter files: dependencies are paths; a stage with a dependency on another repository has no command.
- `--dry`, `--interactive`, `--pull`, checkpoints, persisted outputs and the checkpoint signal file: they end the run early, ask the user, or break the hypothesis that a command depends on its declared dependencies only.
- Turning command-line targets into stages, and the `--pipeline` and `--all-pipelines` selections (`dvc/repo/reproduce.py:95-124`): the model takes any list of targets.
- `downstream` and `single_item` runs of the loop: their pipelines are modelled in `Pipeline`, but `Engine` runs the ordinary pipeline, since the others leave dependencies unbuilt.
- Several cache schemes in one used set: `Objects` models the keys of one scheme.
- Hash collisions, link types, file modes, empty directories and symbolic links: what a path holds is the map of its files, and this map stands for its hash.
- The stage md5 of single-stage `.dvc` files: change of the stage itself is that of a pipeline stage (its command), `dvc/stage/__init__.py:687-690`.
- YAML and JSON text of lock files, the run cache and the rwlock file, and their schema errors; SQLite transactions and the links table; state and index nesting counters.
- Upload errors of kind "too many open files", which stop a push with an exception: they count as failed uploads.
- networkx, pygtrie, pathspec, SQLite and the thread pool: replaced by small models of depth-first search, prefix lookup, gitignore matching, ordering by timestamp and a first-in first-out pool.
- RemoteQuery.EstimateRemoteSize: divisions are over reals; the rounding of floating-point division is not modelled.
- RemoteQuery.HashesExist: overrides for SSH and local caches, which always look up single objects, are not modelled.
- Remote.Remote.Status: the download shortcut for objects that are all cached locally answers from the local cache, and only that is stated there.
- Filtered pushes, which record fewer children than a directory lists: the statements assume recorded children are the full contents.
- Generators.Walker.Next: the tree of directories on disk is given; how a file system lists them is not modelled.
- Generators.OutputWalker.Next: a walk that starts inside a directory output which is not fetched yields an empty directory; the source then asks its trie for a prefix that is not there, and the library decides whether that is an error.
- The entry conditions of `RepoTree.walk` and `DvcTree.walk`, and bottom-up walks (`dvc/tree/repo.py:311-359`, `dvc/tree/dvc.py:196-210`).
- GitIgnore.ChangeRuleKeepsMeaning: rules that start with a backslash are left to `Verdicts.TakenOverMatches` and `EscapeTexts.MeaningKeptIff`; blank rules and a bare `/` are outside all of them, as are directory names with glob characters.
- GitIgnore.RebasedParse: for rules that start with a backslash see `Escapes.EscapedRebase`.
- Escapes.RebasingKeepsMeaningIff: what a bracket expression matches is left to the glob; whether a backslash before one matters is stated through it.
- The pathspec library also lets a rule ending in `/**` match the directory itself; the model follows the gitignore documentation, section "PATTERN FORMAT", where it matches what is inside.
- Asking about paths outside the repository, the listing of matching patterns (`check_ignore`) and Windows separators.
- StateTable.State.Dump: timestamps are numbers, which for texts of equal length is the order the source compares in; the quota share is computed over reals.
- Cloud, SSH, HTTP and other network trees, the command line, progress output, git access, experiments, configuration, plots and metrics.
