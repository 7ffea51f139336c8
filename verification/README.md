# Verification model of go-graft

go-graft is a mutation-testing engine for Go. It clones syntax trees, applies rules to them,
chooses the tests that can notice a change, runs those tests in a worker pool and composes a
report. This project models that logic in Dafny and proves what it is for.

`dafny verify dfyconfig.toml` checks the whole project.

- **Cloning** (`AstNode`, `SlotCounting`, `DeepCopy`, `FileNode`, `ClonePath`, `PathMeaning`,
  `Collect`, `Preorder`, `WalkedPath`, `Mutate`, `StoredLists`). One node class stands for the generated
  case per `go/ast` type: the generator treats every type alike, by the kind of each field and
  in the order of field names (`internal/astclone/cmd/astclonegen/main.go:94-108`). `DeepCopyNode` visits children in
  source order but patches slots in field-name order, so its correctness is a counting
  argument. The deep copy it promises (`docs/public-api.md:52`, `docs/rule.md:24`) is one
  exactly where no field that `ast.Walk` skips shares a child with a later walked field; the
  only type with skipped fields is `ast.File`, where a package comment that is listed in
  `Comments` breaks it.
- **Worker pool** (`WorkerPool`). Goroutines, unbuffered channels, closing and the WaitGroup
  are a transition system; `runOne` is an oracle per mutant.
- **Verdicts** (`Order`, `RunPattern`, `RunOne`, `SelectThenRun`). A `go test` command is an
  oracle per package and pattern with the outcomes passed, failed and timed out.
- **Selection and discovery** (`Graph`, `Resolve`, `Declarations`, `Select`, `CallMeaning`,
  `Pruning`, `Discover`, `DiscoverMeaning`, `DiscoverThenSelect`, `ChaBackend`). Results are
  about the graph of resolved keys (package ID, name), whose edges are characterised on the
  project's own packages, files and declarations. The three queue searches of the source share
  one method, `Graph.Closure`. The main theorem relates the call graph to the import graph:
  pruning by package loses no test.
- **Rules and pipeline** (`Context`, `Storage`, `Registry`, `Decimals`, `FunctionName`,
  `Callee`, `Pipeline`, `Report`, `Engine`). Slices with their backing arrays are in `Storage`;
  they are used where the source copies a list so that later writes do not reach it.

Where the code does not keep a promise, the exact condition is proved: `FaithfulIffShadowFree`
and `FileShadow` (deep copy), `ListedDocIsTheException` (path copy), `PatternReadsBack` (run
pattern). Three more conditions are proved where nothing is promised: `RenamingBack` (when
renaming a callee back restores it), `ReportBalances` (when the counts add up) and
`OrderIsDetermined` (when target types have one order). `NothingRan` shows that a non-empty
selection is Survived without any command exactly when all its lists are empty;
`VerdictOnSelection` shows that `Select` never produces one.

Automatic induction is switched off in the lemmas: each proof shows the induction it uses.
`hide` statements in proofs only narrow what the solver looks at.

## Model

| member | source | states |
|---|---|---|
| `AstNode.Node.ReplaceChild` | internal/astclone/copy_replace.go:210-674 | Succeeds exactly when some field holds the old child and may store the new one; then exactly one slot changes, the first in field-name order. On failure nothing changes. |
| `AstNode.ReplaceField` | internal/astclone/copy_replace.go:676-690 | A pointer field is replaced exactly when it holds the old child and accepts the new child's type. |
| `AstNode.ReplaceSlice` | internal/astclone/copy_replace.go:692-707 | A fresh list with the first occurrence replaced, or nothing. |
| `AstNode.ReplaceMapValue` | internal/astclone/copy_replace.go:709-724 | The same for a map, for every iteration order: some one occurrence is replaced. |
| `AstNode.ShallowCopy` | internal/astclone/copy_replace.go:10-208 | A fresh node with the same type and contents, or nil exactly for unsupported types. |
| `SlotCounting.TotalSplit` | internal/astclone/clone.go:28-60 | Conservation: the slots that hold a child in the original are those of the clone that still hold it plus those that hold its clone. |
| `SlotCounting.PatchPossible` | internal/astclone/clone.go:56-59 | While fewer visits of a child under a parent have happened than the walk makes, some slot of the parent's clone still holds it, so the patch cannot fail. |
| `SlotCounting.PatchStep` | internal/astclone/clone.go:56-59 | One patch raises the number of moved slots of that child by exactly one and leaves every other count alone, although walk order and search order differ. |
| `SlotCounting.VisitsAreWalkedSlots` | internal/astclone/clone.go:28-60 | The walk visits a child as often as the walked fields hold it. |
| `SlotCounting.FaithfulIffShadowFree` | internal/astclone/clone.go:28-60 | A finished clone has every walked slot cloned, and every skipped slot untouched, if and only if no skipped field shares a child with a walked field that comes later in search order. |
| `DeepCopy.DeepCopyNode` | internal/astclone/clone.go:17-68 | For every finite graph, sharing and cycles included: it terminates; it fails exactly when a reachable node has no shallow copy, naming such a node; "failed to replace child" and "missing parent clone" never happen; otherwise the memo table is a one-to-one map from exactly the reachable nodes to fresh copies, the returned map is its inverse, and each copy is isomorphic exactly when it is shadow free. Originals are not written. |
| `DeepCopy.Copier.Walk` | internal/astclone/clone.go:28-60 | The traversal below one node: the parent gains one counted visit, every other known node keeps its count, every new node ends with all its children counted. |
| `DeepCopy.Copier.Visit` | internal/astclone/clone.go:28-60 | The callback: copy once, descend exactly on the first visit, patch the parent's clone. |
| `DeepCopy.WholeGraphCopied` | internal/astclone/clone.go:28-67 | A completed walk has copied exactly the reachable nodes, each one fully patched. |
| `DeepCopy.FaithfulWhere` | internal/astclone/clone.go:28-67 | At each node of the result the copy is isomorphic exactly when nothing is shadowed there. |
| `FileNode.FileShadow` | internal/astclone/copy_replace.go:355-378 | An ast.File is copied faithfully if and only if its Doc group is not listed in Comments. |
| `FileNode.ListedDocExample` | internal/astclone/copy_replace.go:355-378 | Builds a concrete file with a listed package comment, copies it with DeepCopyNode and ends with a copy in which some walked slot does not hold a clone. |
| `FileNode.FullyWalked` | internal/astclone/cmd/astclonegen/main.go:94-108 | Node types all of whose replaceable fields are walked are always copied faithfully. |
| `FileNode.DocMutationLandsInComments` | internal/astclone/copy_replace.go:355-366 | ClonePath through Doc replaces the group in Comments and leaves Doc alone if and only if the group is listed. |
| `ClonePath.ClonePath` | internal/astclone/clone.go:71-104 | Each error is returned exactly in its case; an unsupported parent and a missing child are told apart at the first failing level above the mutated node. On success the result is the path rebuilt from fresh nodes with one slot changed per level, everything else shared, and the map records exactly the rebuilt nodes and their originals. |
| `ClonePath.OneFirstFailure` | internal/astclone/clone.go:82-97 | The first failing level and its error are unique, and a path with one cannot be cloned. |
| `PathMeaning.SpliceSubstitutes` | internal/astclone/clone.go:82-97 | Unfolded as a tree, the result of ClonePath is the original tree with the subtree at one address, where the node sits, exchanged for the mutant. |
| `PathMeaning.SubstituteAt` | internal/astclone/clone.go:82-97 | The mutant is what stands at that address afterwards. |
| `PathMeaning.SubstituteElsewhere` | internal/astclone/clone.go:82-97 | Every address that parts from it keeps its subtree. |
| `Collect.Collector.Callback` | internal/mutation/collect.go:39-79 | Push and pop of the path and function stacks, and the emission of a point. |
| `Collect.Collector.Inspect` | internal/mutation/collect.go:36-80 | The stacks are balanced, and the points appended are those of the specification that the next rows characterise. |
| `Preorder.CollectFile` | internal/mutation/collect.go:36-80 | For one file: the points are the targets at the ends of exactly the routes down from the file, where a route is the list of places passed (step of the walk, then slot); routes increase in preorder, and each path is the nodes passed, with the last function declaration on it. |
| `Preorder.PointsInPreorder` | internal/mutation/collect.go:39-79 | The same below any node; a route comes before another if it is a proper prefix or has the earlier place where they part. |
| `Preorder.OccursOnce` | internal/mutation/collect.go:66-77 | No route is emitted twice. |
| `Preorder.PlaceHolds` | internal/mutation/collect.go:39-79 | The walk meets a node's children each at its place ... |
| `Preorder.PlacesIncrease` | internal/mutation/collect.go:39-79 | ... in the order of the walked fields and of the slots in a field ... |
| `Preorder.PlaceListed` | internal/mutation/collect.go:39-79 | ... and leaves no occupied walked slot out. |
| `Preorder.FuncsInnermost` | internal/mutation/collect.go:53-65 | The top of the function stack is the last function declaration on the path, or nil. |
| `Collect.PointsAreTrails` | internal/mutation/collect.go:52-79 | Soundness: a point's path is a walk from the file to a node of a target type, and its function is the innermost declaration on that path. |
| `Collect.TrailsArePoints` | internal/mutation/collect.go:52-79 | Completeness: every walk to a node of a target type is emitted. |
| `Mutate.MutatePoint` | internal/mutation/collect.go:36-80 | For every emitted point and every replacement of the same type ClonePath succeeds; only path nodes are fresh, one slot of each changes and all else is shared; the new file unfolds to the old one with the mutant at one address; that address is the way the walk took exactly where no slot searched earlier holds a path node, and in a syntax tree exactly where the way does not lead through a listed package comment. |
| `WalkedPath.AddressIsWalked` | internal/astclone/clone.go:82-97 | The address at which ClonePath substitutes is the way of the walk if and only if no slot that is searched earlier holds a node of the path. |
| `WalkedPath.ListedDocIsTheException` | internal/astclone/copy_replace.go:355-366 | Down a syntax tree the address is the walked one if and only if the way does not lead through a listed package comment; through it, Comments gets the mutant and Doc keeps the original. |
| `WalkedPath.TrailHasWay` | internal/mutation/collect.go:36-80 | Every path that Collect emits has such a way: at each level a walked slot that holds the next node. |
| `WalkedPath.TreePath` | internal/mutation/collect.go:36-80 | In a file that is a syntax tree, every emitted path meets the conditions of the exception lemma. |
| `StoredLists.EmittedPaths` | internal/mutation/collect.go:39-79 | With the path stack in an array that later pushes overwrite, every emitted path still lists the nodes of its point at the end, for any sequence of callbacks. |
| `StoredLists.CloneLists` | internal/astclone/copy_replace.go:10-208 | The lists of a shallow copy have the same items in fresh arrays, each its own. |
| `StoredLists.ReplaceStored` | internal/astclone/copy_replace.go:692-707 | The replacement of a list item goes into a fresh array; the given list is not written. |
| `WorkerPool.StepInv` | internal/execution/run.go:41-73 | Every step of every interleaving keeps the invariant: each job is with the producer, held by exactly one worker or delivered; no send or close meets a closed channel. |
| `WorkerPool.Progress` | internal/execution/run.go:41-73 | Deadlock freedom: every unfinished state has an enabled step. |
| `WorkerPool.StepConsumes` | internal/execution/run.go:41-73 | Each step uses up exactly one unit of a bounded amount of work. |
| `WorkerPool.RunInv` | internal/execution/run.go:41-73 | Every state of every run satisfies the invariant, and how much work is left after k steps. |
| `WorkerPool.ReturnedIsSequential` | internal/execution/run.go:69-73 | When the collector has returned, the output is the sequential map of runOne over the mutants. |
| `WorkerPool.EveryRun` | internal/execution/run.go:24-74 | For any worker setting and any number of mutants: no state panics, a run is stuck exactly when it is finished, finished runs have exactly 3n + workers + 4 steps and hold the sequential result. |
| `WorkerPool.Complete` | internal/execution/run.go:41-73 | Every run can be completed to a finished one. |
| `RunOne.RunOne` | internal/execution/run.go:76-140 | Killed exactly when some package with tests fails; Unsupported exactly for an empty selection; the executed packages are exactly those with tests up to and including the first failure, with their patterns; TimedOut exactly when that first failure is a timeout. |
| `RunOne.VerdictUnique` | internal/execution/run.go:76-140 | These conditions fix the verdict. |
| `RunOne.NothingRan` | internal/execution/run.go:93-139 | A non-empty selection is Survived with no package executed if and only if all its lists are empty. |
| `RunPattern.BuildRunPattern` | internal/execution/run.go:154-165 | The loop computes the anchored alternation of the quoted, sorted, non-empty names. |
| `RunPattern.QuoteMetaEscapes` | internal/execution/run.go:158-163 | Quoting escapes exactly the fourteen special characters ... |
| `RunPattern.QuoteMetaJoins` | internal/execution/run.go:158-163 | ... and works character by character. |
| `RunPattern.PatternReadsBack` | internal/execution/run.go:154-165 | Read as a regular expression, the pattern is an anchored alternation of literals: exactly the sorted non-empty names with multiplicity, if and only if there is one; otherwise the empty name. No operator is left unescaped. |
| `RunPattern.NonEmptyKeeps` | internal/execution/run.go:158-163 | Dropping empty names keeps the multiplicity of every other name. |
| `Order.SortedKeys` | internal/execution/run.go:167-174 | The keys in strictly increasing order, for every map iteration order. |
| `Order.StrictlySortedUnique` | internal/execution/run.go:167-174 | Such a list is determined by its members, so the iteration order does not matter. |
| `Order.LessMeans` | internal/execution/run.go:167-174 | Go's string order: a proper prefix, or the smaller character at the first difference. |
| `SelectThenRun.VerdictOnSelection` | internal/execution/run.go:93-139 | On a selection made by Select: Unsupported exactly when no candidate lies in an allowed package; Survived only if a command ran for every selected package and all passed. |
| `SelectThenRun.SelectAndRun` | internal/selection/select.go:33-67 | The two operations composed. |
| `Graph.Closure` | internal/selection/select.go:75-89 | The queue search ends, on any finite graph, with exactly the nodes reachable from the seeds. |
| `Graph.BackwardIsForward` | internal/selection/select.go:69-98 | Searching backwards over the transposed graph is searching forwards. |
| `Select.BuildReverseCallers` | internal/selection/select.go:100-152 | The map built is the transpose of the graph of resolved calls. |
| `CallMeaning.EdgeMeans` | internal/selection/select.go:100-152 | An edge leads from a to b if and only if the last declaration with a body under a has a call that is a plain name of b in a's package, or a selection of b through an alias, as the last file of the package ID declares it, in the package chosen for its path. |
| `CallMeaning.ReverseMeans` | internal/selection/select.go:100-152 | The map built lists under b exactly the keys that call b in that sense. |
| `CallMeaning.BodyIsLast` | internal/selection/select.go:106-131 | The body kept for a key is that of the last declaration with a body under it. |
| `CallMeaning.AliasIsLast` | internal/selection/select.go:106-131 | The path kept for an alias is that of the last file of the package ID that declares it. |
| `Declarations.CallResolves` | internal/selection/resolve.go:71-131 | A call resolves to the function the type information names, if it is found, and otherwise to the plain name in the current package or to the selected name in the package chosen for the alias. |
| `Declarations.LookupIsChosen` | internal/selection/resolve.go:133-157 | The package chosen for a path and a name: the current one if it has the function, else the least ID that does. |
| `Select.CandidateTests` | internal/selection/select.go:69-98 | Exactly the tests with a forward path of resolved calls to the enclosing function, in input order; all tests if it is unknown. |
| `Select.KeepPicks` | internal/selection/select.go:91-97 | What is kept are the tests at exactly the positions with the property, in their order. |
| `Select.ReverseDependers` | internal/selection/select.go:162-190 | Exactly the reflexive transitive importers of the root, for any import graph; only the root itself when its path is empty. |
| `Select.Select` | internal/selection/select.go:33-67 | Per allowed package the candidates' names, strictly sorted and never empty; when the backend finds none, exactly the names of all tests in allowed packages; nothing when there are no tests. |
| `Select.SelectionUnique` | internal/selection/select.go:47-66 | These conditions fix the selection, whatever the map iteration order. |
| `Pruning.CallFollowsImport` | internal/selection/resolve.go:110-157 | A resolved call stays in its package or goes to one that the package imports. |
| `Pruning.PruningLosesNothing` | internal/selection/select.go:41-56 | Every test found by function reachability lies in a package accepted by the reverse dependers. |
| `Pruning.SelectAST` | internal/selection/select.go:33-67 | With the AST backend and some test that reaches the point by a chain of calls in the project's declarations, the selection is exactly the names of those tests. |
| `DiscoverThenSelect.TestsLocated` | internal/selection/discover.go:61-88 | A discovered test names a package of the project by ID and import path. |
| `DiscoverThenSelect.DiscoverAndSelect` | engine_run_helpers.go:28-54 | Discovery and selection composed, on the project's declarations: when some test that takes part reaches the point, the selection is exactly the names of the tests that take part and reach it. |
| `Resolve.BuildByImport` | internal/selection/resolve.go:51-69 | Each import path is mapped to the sorted, duplicate-free IDs of its packages. |
| `Resolve.LookupFunctionKey` | internal/selection/resolve.go:133-157 | For any index the two loops compute the specified look-up: the current package first, then the IDs in increasing order. |
| `Resolve.LookupFinds` | internal/selection/resolve.go:133-157 | A key is found exactly when a candidate package has it; the current package wins, otherwise the least ID does. |
| `Discover.CollectFunctions` | internal/selection/discover.go:118-154 | One entry per declared key with the directive of its last declaration, and the records in order. |
| `DiscoverMeaning.RecordsListed` | internal/selection/discover.go:118-154 | One record for each declaration with a body, in loading order, with its key, its package's type flag, its file's aliases, its body and its directive. |
| `DiscoverMeaning.RecordExists` | internal/selection/discover.go:118-154 | A record exists if and only if some declaration has its contents. |
| `Declarations.GatherListed` | internal/selection/discover.go:118-154 | A list gathered over packages, files and declarations has the shares of exactly the declarations that contribute, in loading order. |
| `Discover.BuildCalls` | internal/selection/discover.go:156-186 | A key's callees are exactly what the calls in any of its bodies resolve to; its flag says whether one of them runs the engine. |
| `DiscoverMeaning.CallsMeans` | internal/selection/discover.go:156-186 | On the declarations: a calls b if and only if some body under a has a call that means b. |
| `DiscoverMeaning.RunsMeans` | internal/selection/discover.go:156-186 | On the declarations: a runs the engine if and only if some body under a, in a package with type information, calls (*Engine).Run. |
| `DiscoverMeaning.DirectiveMeans` | internal/selection/discover.go:118-154 | The directive of a key is that of the last declaration with a body under it. |
| `Discover.ReachesEngineRun` | internal/selection/discover.go:195-214 | True exactly when a function reachable from the start runs the engine, on cyclic graphs too, despite the shared seen set and the early exit. |
| `Discover.Split` | internal/selection/discover.go:90-115 | An order-preserving partition; a test without directive is excluded exactly when it reaches Run. |
| `Discover.DiscoverDetailed` | internal/selection/discover.go:56-116 | The partition of the discovered tests for a whole project, over its records. |
| `DiscoverMeaning.DiscoverProject` | internal/selection/discover.go:56-116 | On the declarations: included are exactly the test declarations that are not left out, excluded exactly those that are, both in loading order; the reason is the directive exactly if it excludes. |
| `DiscoverMeaning.LeftOutMeans` | internal/selection/discover.go:90-115 | Left out exactly by the last directive under the key, or without one by a chain of calls to a function that runs the engine. |
| `DiscoverMeaning.TestsListed` | internal/selection/discover.go:61-88 | The discovered tests are exactly the declarations that are tests, with their package and name, in loading order. |
| `ChaBackend.BuildReverse` | internal/selection/backend_cha.go:180-205 | The transpose of the call graph without absent nodes and edges, each caller once. |
| `ChaBackend.CandidateTests` | internal/selection/backend_cha.go:58-109 | One test per key; the keys are exactly those attached to functions that reach a seed, whatever the iteration order. |
| `ChaBackend.Candidates` | internal/selection/backend_cha.go:31-109 | The two composed, in terms of the call graph itself. |
| `Context.Context.SetOriginal` | internal/rule/context.go:27-35 | Records the pair unless one of the two is nil. |
| `Context.Context.Original` | internal/rule/context.go:38-56 | Terminates on every map; returns the end of the chain, or on a cycle the first node that repeats. |
| `Context.ResolvesUnique` | internal/rule/context.go:38-56 | That description picks out one node. |
| `Context.PrepareRuleInput` | engine_run_helpers.go:139-157 | In both copy modes every recorded clone resolves to its own counterpart when the callback starts; a deep copy fails exactly when a reachable node has no shallow copy and otherwise records exactly the reachable nodes. |
| `Pipeline.TryRule` | engine_run_helpers.go:68-114 | One turn of the rule loop: the early exits after preparation, application, path copy and build leave the turn as an error, as unchanged or as a runnable mutant that carries the selection for its point. |
| `Pipeline.BuildMutants` | engine_run_helpers.go:56-117 | The loops compute the immediate errors and the runnable mutants of all (point, rule) pairs in order, numbered by the shared counter; points without rules are skipped. |
| `Pipeline.PairsInTurn` | engine_run_helpers.go:61-70 | The pairs are each point with each of its rules, point by point and rule by rule. |
| `Pipeline.PairFate` | engine_run_helpers.go:68-114 | Each pair is exactly one of three: in the list of immediate errors under its own number, in the list of runnable mutants, or unchanged and in neither, as its stages say. |
| `Pipeline.ImmediateListed` | engine_run_helpers.go:68-107 | The immediate errors are those of exactly the pairs whose turn ends in one, in pair order; each has the ID "m-" and its pair's number in decimal, its pair's point and rule, the errored status and nothing executed. |
| `Pipeline.ToRunListed` | engine_run_helpers.go:68-114 | The runnable mutants are those of exactly the pairs whose turn gives one, in pair order. |
| `Pipeline.EveryPairOnce` | engine_run_helpers.go:68-114 | The three kinds add up to the number of pairs. |
| `Pipeline.ImmediateNumber` | engine_run_helpers.go:69-98 | An immediate result is the error of some pair, under that pair's number, and its place in the list is the number of errors before it. |
| `Pipeline.ImmediateIncreases` | engine_run_helpers.go:69-98 | The numbers increase along the list of immediate errors. |
| `Pipeline.ToRun` | engine_run_helpers.go:69-114 | The pairs that give a runnable mutant, in increasing order. |
| `Pipeline.IDsDistinct` | engine_run_helpers.go:69-70 | Mutant IDs are pairwise distinct, within each list and between the two. |
| `Report.Summarize` | internal/execution/report.go:13-28 | The four counters. |
| `Report.ComposeReport` | engine.go:86-130 | One entry per result in order, with mapped status and sorted executed packages. |
| `Report.ReportBalances` | engine.go:86-143 | The counts add up to the total, and match the entries, if and only if every status is one of the four named values. |
| `Engine.RunMutants` | engine_run_helpers.go:119-125 | For any worker setting and any interleaving, the result of each mutant, in index order, has its ID, point and rule and the status, executed packages and timeout of its own verdict. |
| `Engine.RunCounts` | internal/execution/report.go:13-28 | Killed counts the mutants with a failing command, unsupported those with an empty selection, survived the others. |
| `Engine.ErrorCounts` | engine_run_helpers.go:75-107 | The number of immediate errors is the number of pairs whose turn ends in an error. |
| `Engine.EngineRun` | engine.go:36-54 | From the points to the report, over any stage outcomes, test commands, worker setting and interleaving. The entries are first the errors, then the mutants, each with its pair's number, point and rule; a mutant's entry has its verdict's status, timeout and exactly its executed packages with their patterns, strictly sorted. The four counts are the numbers of mutants with a failing command, of the surviving ones, of those with an empty selection and of pairs in error, add up to the total, and with the unchanged pairs account for all pairs. |
| `Storage.Append` | internal/rule/registry.go:40-41 | Go's append: into the array while it has room, otherwise into a fresh one; no other item changes. |
| `Registry.AlwaysIndexed` | internal/rule/registry.go:37-42 | After every history of calls the type index holds, per type, the subsequence of the ordered list. |
| `Registry.Registry.Add` | internal/rule/registry.go:37-42 | The ordered list and the list for the rule's type gain the rule at the end; the lists for all other types stay as they are; all are in arrays of their own. |
| `Registry.OrderedAreAdds` | internal/rule/registry.go:37-42 | After any history the ordered list has the rules of exactly the Add calls, in call order. |
| `Registry.TypeListAreAdds` | internal/rule/registry.go:37-42 | The list for a type has those of exactly the Add calls with that type, in call order. |
| `Registry.RulesForAreAdds` | internal/rule/registry.go:65-70 | So has what RulesFor returns on a snapshot, for the calls made before it. |
| `Registry.Registry.NextID` | internal/rule/registry.go:44-49 | One more than before; the lists stay as they are. |
| `Registry.IDsAreTakes` | internal/rule/registry.go:44-49 | After any history the last ID is the number of NextID calls. |
| `Registry.Registry.TakeSnapshot` | internal/rule/registry.go:51-63 | Stores the state of the calls made so far in fresh objects, none of them the registry's. |
| `Registry.PerformAll` | internal/rule/registry.go:37-63 | Over every sequence of Add, NextID and Snapshot calls, each snapshot still stores at the end the state in which it was taken. |
| `Registry.TimesComplete` | internal/rule/registry.go:51-63 | These are all the snapshots of the sequence ... |
| `Registry.TimesIncrease` | internal/rule/registry.go:51-63 | ... each once, in call order. |
| `Registry.SnapshotsExtend` | internal/rule/registry.go:51-63 | What an earlier snapshot stores is a prefix of what a later one stores, in order and per type. |
| `Registry.DefaultNamesDistinct` | internal/rule/register.go:48-50 | Default names given out by any two calls differ, however calls interleave. |
| `Registry.Registry.Register` | internal/rule/register.go:31-67 | One rule is added at the end, under its own name, or under "rule#" and the next ID in decimal. |
| `Registry.RulesFor` | internal/rule/registry.go:65-70 | The snapshot's rules for a type, in registration order, in a list of the caller's own; none for a nil node. |
| `Registry.TargetTypes` | internal/rule/registry.go:72-88 | Each type with a rule once, sorted by printed form. |
| `Registry.OrderIsDetermined` | internal/rule/registry.go:77-86 | The order of the target types is the same for every map iteration order if and only if no two of them share a printed form. |
| `Decimals.Itoa` | internal/rule/register.go:82-94 | For every value in 0..2^63-1 the decimal numeral, without leaving the 20-byte buffer; the empty string for negative values. |
| `Decimals.DecimalInjective` | internal/rule/register.go:82-94 | Different numbers have different numerals. |
| `Decimals.DecimalIsNumeral` | internal/rule/register.go:82-94 | A numeral is decimal digits without leading zeros that denote the number. |
| `FunctionName.ParsePackageFunctionName` | internal/rule/function_swap.go:111-150 | The index loop computes the specified scan. |
| `FunctionName.RuntimeNameForm` | internal/rule/function_swap.go:152-167 | Accepts exactly an identifier with an optional bracketed tail. |
| `FunctionName.ParseInverts` | internal/rule/function_swap.go:111-167 | Parsing path + "." + name + type arguments gives back path and name, dots in the last path element included. |
| `FunctionName.AcceptedRebuilds` | internal/rule/function_swap.go:111-167 | Every accepted name rebuilds from its parts and an optional bracketed tail. |
| `FunctionName.AcceptsExactly` | internal/rule/function_swap.go:111-167 | A name is accepted if and only if it has the runtime form. |
| `Callee.SameIdentifier` | internal/rule/function_swap.go:169-246 | Look-up and renaming settle on the same identifier; renaming changes nothing else and succeeds exactly when the name matches. |
| `Callee.RenamingUnderLayers` | internal/rule/function_swap.go:199-246 | Renaming goes through any number of layers of type arguments and keeps them: it changes a plain name, or a selected one, whose object it drops, and nothing else. |
| `Callee.LookupUnderLayers` | internal/rule/function_swap.go:169-197 | So does the look-up of the called function. |
| `Callee.Unwrap` | internal/rule/function_swap.go:169-246 | Every callee is a name, a selection or something else in such layers. |
| `Callee.RenamingBack` | internal/rule/function_swap.go:199-246 | Renaming back restores the callee if and only if it is not a selected name with a resolved object, which is dropped. |

## Left out

- The overlay builder, process launch, environment, temporary directories, formatting, debug output and configuration defaults: input and output, or easy branches.
- `elapsed` and cleanup errors of `runOne`: a deferred function writes them after the result has been copied.
- Package loading, SSA construction, the RTA backend, `resolveSeeds` and the CHA algorithm: calls into libraries. The call graph and the seeds are arbitrary.
- Type checking and reflection: a call carries what the type information says about its callee; node types are names, and equal names are equal types.
- The text matching behind directives, test recognition and import aliases: given as fields of the declarations.
- The package and file loops of `Collect`, its test-file filter and the position fields of a point: `Collector.Inspect` is the work on one file.
- `go/ast`: walk order and the set of fields a type has are parameters of the model; nil entries in slice and map fields, on which `ast.Walk` panics, are excluded by `FieldsFit`.
- ClonePath.ClonePath: asks that path nodes are well typed, which Go's type system guarantees, and nothing about the path itself.
- AstNode.ShallowCopy: a node's lists are values here; that the copies have arrays of their own is `StoredLists.CloneLists`.
- DeepCopy.Copier.Walk: models `ast.PreorderStack`, which belongs to Go's library, as a recursion with the stack as argument.
- RunOne.RunOne: Killed does not mean that a test noticed the mutant; a cancelled parent context also makes a command fail.
- Context.PrepareRuleInput: says nothing about the map after the callback has run, when ClonePath's map is added to it.
- Engine.EngineRun: the stage outcomes of a (point, rule) pair are an oracle, panics recovered in `Apply` among them; loading the project, and the empty report for a registry without rules, come before it.
- Registry.Registry.Add: the lock is not modelled; calls take effect one at a time, in the order in which they get it.
- FunctionName.ParseInverts: nothing is claimed about closures or methods with value receivers, whose runtime names have the same form.
- `Config`, `MutationScore`, method-call swaps and registration of function swaps: further clients of what is modelled.
