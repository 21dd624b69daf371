# Verified model of the build and documentation tooling

This project models the algorithms inside the repository's build and documentation scripts and proves
what those scripts rely on:

- **Package order** (`Packages`, `Reachability`, `StackSearch`, `SinkCycles`, `PackageOrder`). Workspace
  packages are listed dependencies first, layer by layer. When no package is ready, a strongly-connected-component
  search with low links finds the cyclic components that no dependency leaves, and the first of them becomes the
  layer. The search runs as a class with the source's six mutable variables; the result is a function of the
  package set, whatever the order of the input.
- **Coverage partitions** (`Schedule`, `LptBound`, `FilledBuckets`, `BucketHeap`, `Partitions`, `CoverageRun`).
  Test files go to the currently lightest partition, heaviest first, found through an in-place binary heap. The
  heap is proved to give a lightest bucket every time, the schedule to be within Graham's ratio of every other
  schedule, and the partitions to be non-empty under an exact condition.
- **Configuration catalog** (`ConfigTypes`, `ConfigPresence`, `ConfigSoundness`, `ConfigExactness`,
  `ConfigReordering`, `ConfigTermination`, `ConfigEndless`, `ConfigGrowth`, `ConfigWalk`, `ConfigPath`,
  `DeclarationPaste`, `ComposedKeys`). A key path is looked up in recursive types with three answers, and the
  definite ones are given exactly when they can be; a configuration type is pasted together with all the types it
  needs; composed schemas are folded.
- **Event graph** (`EventFlow`). Event names are followed backwards from dispatch arguments through
  conditionals, constants and helper parameters.
- **Benchmark discovery** (`WorkerPool`, `BenchmarkCandidates`). A bounded concurrent map, as a state machine over
  all interleavings, and a queue-based closure over installed packages.
- **Framing and scanning** (`ArtifactFraming`, `LinkScanner`, `LinkGrammar`, `JsText`, `JsDoc`, `DeploymentTarget`).
  The artifact digest's byte stream, Markdown destinations, JSDoc prose, and macOS deployment targets.

`Results`, `Naturals`, `Sets`, `Sequences`, `Sorting`, `Collation` and `Totals` hold shared definitions.

Some reading notes:

- `Reach` is reachability in zero or more steps. `IsComponent` is a maximal strongly connected set, and
  `IsSinkCycle` one with an inner edge that no edge leaves.
- `IsOrderOf` says that a list is the concatenation of a complete run of layers; `OrderUnique` shows that at most
  one list is.
- `Present` and `Absent` give types a meaning of their own, with no lookup in it: a path is present when some
  depth of declarations reaches it on every branch, absent when no depth reaches it on any branch. What the lookup
  cannot see through is left to a *completion*, and every theorem holds for all completions.
- The lookup is specified with fuel, spent on entering declarations only. `ConfigWalk.Walk` runs without it, on
  one mutable set of seen keys, and `DeclMoreFuel` shows that fuel never changes an answer.
- `EnteredByDecl` lists the keys a walk would enter if it skipped none; `EntersOnce` says that they are distinct.
- `StandsBefore` ranks packages, `Lightest` buckets, `Carries` and `FlowStep` array literals and the flow of values,
  `States` lines of tool output, `Qualifies` candidates: each is written out, not through the function it specifies.

Where the code and its documentation disagree, the model follows the code:

- `assignWeightedPartitions` is documented to return only non-empty partitions. `PartitionsFilledIff` gives the
  exact condition (enough files, and enough of them of non-negative weight), and `NegativeWeightStarves` an input
  with enough files that misses it.
- `topoSort` has a branch for a graph it cannot order. `FallbackExists` shows that the branch is never taken.
- The destination scan does not invert section 6.3 of CommonMark 0.31.2 on every input. `RecoversIff` says exactly
  when it does; `NoBreakSpaceMissed` and `DanglingBackslashMissed` are inputs it misses.
- `mapConcurrent` ends a worker at an undefined value. `SettledOutcome` says what a run leaves behind in every
  case, and `MapsEverything` when it maps every value.
- An indexed access lengthens the path being looked up, which the seen keys do not guard against, so the lookup
  need not end. `LookupTerminates` gives a condition under which it always does: bounds for all declarations under
  which no cycle prepends more steps than the properties and elements on it use up. `GrowingHeadsNeverEnd` gives,
  for every world, a condition under which it never does. Where nothing uses up a step and goes on (aliases of any
  unions, intersections, wrappers and indexed accesses, over literals and interfaces without typed members or
  bases), `GrowthDecides` closes the gap: the lookup ends exactly when no growing cycle can be reached. What stays
  open is a world with typed members, array elements or bases that has a growing cycle through one of them, through
  a part that is not evaluated first, or where the lookup never comes. There the answer depends on the names along
  the path, which decide whether the walk gets round the cycle, and on keys of equal length seen in an earlier part.
- The lookup is documented to call whatever it cannot see through unknown. It also says unknown of a name that is
  absent beyond doubt when a declaration is met twice with as many steps left, as with a shared base interface
  (`DiamondHidesAbsence`). `MissingIff` is the exact condition.
- `topoSort` keeps the last of several packages with one short name. `OrderPermutesIff` says when its result is a
  permutation of its input.

## Model

| member | source | states |
|---|---|---|
| Reachability.SinkCycleExists | dsh-src/scripts/package-graph.ts:76-80 | every finite non-empty graph in which each node has a successor contains a cyclic component that no edge leaves |
| Reachability.InnerEdgeIff | dsh-src/scripts/package-graph.ts:141 | a component contains a cycle exactly when it has two members or its first member depends on itself |
| StackSearch.OpenVisit | dsh-src/scripts/package-graph.ts:103-108 | indexing and stacking a node reached from every open visit keeps the search invariant |
| StackSearch.ScanStacked | dsh-src/scripts/package-graph.ts:115-116 | lowering the link to a stacked dependency's index keeps it the index of a reachable stacked node, and a bound on all edges leaving the part of the stack above |
| StackSearch.ScanChild | dsh-src/scripts/package-graph.ts:112-114 | a visited dependency's low link, handed up, keeps the same two facts although the visit changed the stack |
| StackSearch.ScanComplete | dsh-src/scripts/package-graph.ts:109-118 | with all dependencies scanned, no edge from the visit's part of the stack leads below the low link |
| StackSearch.StayStacked | dsh-src/scripts/package-graph.ts:119 | a node whose low link is below its index stays stacked: it reaches an open node of lower index |
| StackSearch.TopIsComponent | dsh-src/scripts/package-graph.ts:119-132 | when the low link is the node's own index, the stack from the node up is a maximal strongly connected set that only edges to finished components leave |
| StackSearch.PopTop | dsh-src/scripts/package-graph.ts:120-132 | moving that part of the stack to the finished components keeps the search invariant |
| SinkCycles.Search.Enter | dsh-src/scripts/package-graph.ts:103-108 | a package gets the next index as index and low link, goes on the stack, and nothing else changes |
| SinkCycles.Search.Follow | dsh-src/scripts/package-graph.ts:109-118 | one dependency is scanned: the invariant holds again, earlier stack, components, indices and low links are kept, and the dependency counts as scanned |
| SinkCycles.Search.FollowAll | dsh-src/scripts/package-graph.ts:109-118 | the loop over all dependencies keeps the invariant and everything from before, and leaves every dependency scanned |
| SinkCycles.Search.PopComponent | dsh-src/scripts/package-graph.ts:120-132 | the stack is cut back to below the package and exactly one component is added, under the invariant that every component is a maximal strongly connected set |
| SinkCycles.Search.Finish | dsh-src/scripts/package-graph.ts:119-132 | the end of a visit pops a component exactly when the low link is the package's own index, and leaves a low link that bounds every edge out of what stays stacked |
| SinkCycles.Search.Visit | dsh-src/scripts/package-graph.ts:102-133 | the whole recursive visit keeps the invariant, gives the package the next index, restores the stack below itself and ends with a correct low link |
| SinkCycles.AllComponents | dsh-src/scripts/package-graph.ts:135-137 | in any visiting order the popped components are maximal strongly connected sets that hold every package exactly once |
| SinkCycles.FilterIsExact | dsh-src/scripts/package-graph.ts:138-143 | the filter keeps a component exactly when it contains a cycle and no remaining edge leaves it |
| SinkCycles.FindSinkCycles | dsh-src/scripts/package-graph.ts:94-144 | for any finite graph and visiting order the result lists exactly the cyclic components that no remaining edge leaves, each once |
| PackageOrder.IndexOf | dsh-src/scripts/package-graph.ts:153-154 | the first position of a group, or -1 exactly when it is not listed |
| PackageOrder.CompareIsTotal | dsh-src/scripts/package-graph.ts:152-158 | the comparator is antisymmetric and transitive, and zero only on equal groups and short names |
| PackageOrder.CompareIsRanking | dsh-src/scripts/package-graph.ts:152-158 | the comparator is negative exactly when the first package ranks first: listed groups by position in the group order, before unlisted ones by collation, and inside one group the lesser short name |
| PackageOrder.ByName | dsh-src/scripts/package-graph.ts:61 | the name map holds listed packages only and has every listed name |
| PackageOrder.LastIsKept | dsh-src/scripts/package-graph.ts:61 | of packages that share a short name the map keeps the last |
| PackageOrder.FirstMissing | dsh-src/scripts/package-graph.ts:62-68 | the first dependency that no package provides, or none exactly when every dependency is provided |
| PackageOrder.ReportsFirstMissing | dsh-src/scripts/package-graph.ts:62-68 | the error names the first unknown dependency of the first package that has one |
| PackageOrder.ByNamePermuted | dsh-src/scripts/package-graph.ts:61 | for distinct short names the name map does not depend on the input order |
| PackageOrder.CycleBatch | dsh-src/scripts/package-graph.ts:77-79 | sorting each cycle and then the cycles by their heads selects the sink cycle that holds the least package of any sink cycle |
| PackageOrder.FallbackExists | dsh-src/scripts/package-graph.ts:76-80 | when packages remain and none is ready, the list of sink cycles is not empty |
| PackageOrder.NextBatch | dsh-src/scripts/package-graph.ts:73-82 | the next layer is every ready package in ranking order, or else the first sink cycle; it never fails |
| PackageOrder.TopoSort | dsh-src/scripts/package-graph.ts:60-90 | the only failure is the first missing dependency; otherwise the loop ends with a complete run of layers |
| PackageOrder.LayerOrder | dsh-src/scripts/package-graph.ts:73-79 | inside every layer of an order, a listed group of lower position stands first, a listed group before an unlisted one, unlisted ones by collation, and inside one group the lesser short name |
| PackageOrder.OrderContract | dsh-src/scripts/package-graph.ts:32-33 | the result lists exactly the packages of the name map, each once, and every dependency stands earlier unless the two packages reach each other |
| PackageOrder.OrderPermutesIff | dsh-src/scripts/package-graph.ts:60-90 | the result is a permutation of the input list exactly when no short name is listed twice |
| PackageOrder.OrderUnique | dsh-src/scripts/package-graph.ts:60-90 | a package map has at most one order, cycles included |
| PackageOrder.InputOrderIrrelevant | dsh-src/scripts/package-graph.ts:60-90 | two permutations of the same distinctly named packages give the same output |
| Sorting.SortSorts | dsh-src/scripts/package-graph.ts:75 | sorting by a total preorder gives a sorted list |
| Sorting.StrictlySortedUnique | dsh-src/scripts/package-graph.ts:75 | two strictly ascending lists of the same elements are equal |
| Schedule.SumIsWeight | dsh-src/scripts/coverage-partitions.ts:310-316 | a bucket's running sum is the total weight of its files |
| Schedule.AfterKeepsFiles | dsh-src/scripts/coverage-partitions.ts:310-318 | after any placements the buckets hold exactly the placed files |
| BucketHeap.RootIsLightestBucket | dsh-src/scripts/coverage-partitions.ts:307-311 | no bucket has a smaller sum than the one at the root of a heap that holds every bucket index once, and none of the same sum has fewer files |
| BucketHeap.RootGrew | dsh-src/scripts/coverage-partitions.ts:315-317 | changing the root's bucket leaves the heap in order except below the root |
| BucketHeap.ChosenChild | dsh-src/scripts/coverage-partitions.ts:330-342 | the two comparisons find a lightest of a position and its children |
| BucketHeap.SwapMovesHole | dsh-src/scripts/coverage-partitions.ts:344-349 | exchanging a position with its lightest child leaves at most that child out of order |
| BucketHeap.SwapPermutes | dsh-src/scripts/coverage-partitions.ts:344-348 | the exchange keeps every bucket index in the heap once |
| BucketHeap.HoleFilled | dsh-src/scripts/coverage-partitions.ts:343 | a position with no lighter child is in order, and so is the whole heap |
| BucketHeap.SiftDown | dsh-src/scripts/coverage-partitions.ts:322-351 | from a heap in order except below one position, the array ends as a heap over the same indices |
| Partitions.SeededFacts | dsh-src/scripts/coverage-partitions.ts:303-305 | the seeded items are the files, weighed by the duration map (1 when unknown), heaviest first, equally heavy ones in collation order |
| Partitions.PlaceFile | dsh-src/scripts/coverage-partitions.ts:310-318 | a file goes last into the bucket at the root: no bucket has a smaller sum, and none of the same sum has fewer files; its sum grows by the weight, no other bucket changes, and the heap order is restored |
| Partitions.AssignWeightedPartitions | dsh-src/scripts/coverage-partitions.ts:297-320 | the result is a longest-processing-time schedule; it fails exactly on files without partitions |
| Partitions.ScheduleConserves | dsh-src/scripts/coverage-partitions.ts:297-320 | a schedule has one list per partition and holds exactly the files, with multiplicity |
| FilledBuckets.EmptyCount | dsh-src/scripts/coverage-partitions.ts:306-318 | how many buckets are empty after n placements of which p have non-negative weight |
| FilledBuckets.SomeBucketNegative | dsh-src/scripts/coverage-partitions.ts:310-318 | once an item of negative weight is placed before all buckets are filled, some bucket has a negative sum |
| FilledBuckets.AllFilledIff | dsh-src/scripts/coverage-partitions.ts:295-320 | no bucket is empty exactly when there are m items, m - 1 of non-negative weight |
| Partitions.PartitionsFilledIff | dsh-src/scripts/coverage-partitions.ts:295-320 | for all inputs: every partition is non-empty exactly when there are m files and m - 1 files of non-negative weight |
| Partitions.NonNegativeFilledIff | dsh-src/scripts/coverage-partitions.ts:295-320 | with non-negative weights every partition is non-empty exactly when there are m files |
| Partitions.NegativeWeightStarves | dsh-src/scripts/coverage-partitions.ts:295-320 | two files of duration -1 on two partitions leave one partition empty, so the documented result is false in general |
| LptBound.HeavyItemFits | dsh-src/scripts/coverage-partitions.ts:310-318 | when the last file of a bucket weighs more than a third of the other schedule's maximum, the bucket stays within that maximum |
| LptBound.LightestLoad | dsh-src/scripts/coverage-partitions.ts:310-318 | m times the lightest load plus the file placed on it is at most m times the other schedule's maximum |
| LptBound.GrahamBound | dsh-src/scripts/coverage-partitions.ts:297-320 | with non-negative weights every bucket satisfies 3·m·load ≤ (4·m − 1)·max' against every other distribution of the same items |
| LptBound.GrahamBoundTight | dsh-src/scripts/coverage-partitions.ts:297-320 | the ratio is attained: a schedule of five files on two buckets meets it with equality |
| Partitions.HeaviestPartition | dsh-src/scripts/coverage-partitions.ts:297-320 | Graham's bound for the returned file lists |
| CoverageRun.AssignFiles | dsh-src/scripts/coverage-partitions.ts:513-532 | as many partitions as configured, heaviest first, holding exactly the inventory, and a reordering of a longest-processing-time schedule |
| CoverageRun.AssertNonEmptyAssignments | dsh-src/scripts/coverage-partitions.ts:486-494 | succeeds exactly when no partition is empty, and reports the first empty one |
| CoverageRun.Plan | dsh-src/scripts/coverage-partitions.ts:452-453 | a run is planned exactly when there are enough files and enough of non-negative weight; a planned run holds every file and no empty partition |
| CoverageRun.PartitionConfigOf | dsh-src/scripts/coverage-partitions.ts:388-393 | a path is on the process-bound list exactly when a process-bound file of the partition has it, on the thread-safe list exactly when another file has it, and together the lists hold the partition with multiplicity |
| CoverageRun.OwnProjectOnly | dsh-src/scripts/coverage-partitions.ts:384-393 | a path is on a project's list exactly when a file of that project has it |
| CoverageRun.ExactlyOnce | dsh-src/scripts/coverage-partitions.ts:384-411 | over all partitions and projects the include lists hold every inventory path as often as the inventory, once for a duplicate-free inventory |
| ConfigPresence.HasMonotone | dsh-src/scripts/gen-config-catalog.ts:309-316 | a path present down to some depth of declarations is present down to every greater depth |
| ConfigSoundness.NodeSound | dsh-src/scripts/gen-config-catalog.ts:317-403 | found in a type means present on every branch, missing means present on none, whatever keys were seen before |
| ConfigSoundness.DeclSound | dsh-src/scripts/gen-config-catalog.ts:322-361 | the same for a named declaration with its heritage |
| ConfigSoundness.LookupIsSound | dsh-src/scripts/gen-config-catalog.ts:309-403 | found implies present and not absent, missing implies absent and not present, for every completion of what is out of reach |
| ConfigSoundness.AnswersNeverClash | dsh-src/scripts/gen-config-catalog.ts:319-326 | two lookups of one path never answer found and missing, whatever each branch had seen |
| ConfigSoundness.PartOrderIrrelevant | dsh-src/scripts/gen-config-catalog.ts:367-376 | presence in a union or intersection does not depend on the order of the parts |
| ConfigExactness.NodeExact | dsh-src/scripts/gen-config-catalog.ts:317-403 | where the keys a walk through a type can enter are distinct and new, an answer other than found leaves the path absent for some completion, an answer other than missing present on some branch for some |
| ConfigExactness.DeclExact | dsh-src/scripts/gen-config-catalog.ts:322-361 | the same for a named declaration with its heritage |
| ConfigExactness.MissingDecl | dsh-src/scripts/gen-config-catalog.ts:319-326 | a missing answer met every key for the first time, down to any depth |
| ConfigExactness.MissingIff | dsh-src/scripts/gen-config-catalog.ts:309-403 | missing is answered exactly when the path is absent for every completion and no key of declaration and remaining length is met twice |
| ConfigExactness.FoundIff | dsh-src/scripts/gen-config-catalog.ts:309-403 | where no key is met twice, found is answered exactly when the path is present for every completion |
| ConfigExactness.DiamondHidesAbsence | dsh-src/scripts/gen-config-catalog.ts:319-326 | an interface that extends a shared base twice is unknown for a name it lacks, although the name is absent for every completion |
| ConfigTypes.FindsFirst | dsh-src/scripts/gen-config-catalog.ts:335-343 | the first member of that name decides, and none does exactly when no member has it |
| ConfigReordering.SameNode | dsh-src/scripts/gen-config-catalog.ts:317-403 | a path is present in a type exactly when it is present in the same type with parts, and bases in all declarations, in any order at every depth |
| ConfigReordering.SameDecl | dsh-src/scripts/gen-config-catalog.ts:317-361 | the same for a named declaration |
| ConfigReordering.AnyOrder | dsh-src/scripts/gen-config-catalog.ts:367-376 | listing the parts of a union or intersection in any order is such a reordering |
| ConfigReordering.VisitingOrdersNeverClash | dsh-src/scripts/gen-config-catalog.ts:309-403 | two lookups of one path in a declaration, each visiting parts and bases in its own order at every depth and in every declaration, with any keys seen before, never answer found and missing |
| ConfigReordering.TypeOrdersNeverClash | dsh-src/scripts/gen-config-catalog.ts:309-403 | the same for two lookups in a type |
| ConfigTermination.NodeFinishes | dsh-src/scripts/gen-config-catalog.ts:317-403 | with fuel for every unseen key of declaration and remaining length, the walk through a type ends, and only such keys are added |
| ConfigTermination.DeclFinishes | dsh-src/scripts/gen-config-catalog.ts:322-326 | the same when a declaration is entered |
| ConfigTermination.LookupTerminates | dsh-src/scripts/gen-config-catalog.ts:319-326 | the lookup ends when no cycle of declarations can prepend more steps than the properties and elements on it use up |
| ConfigTermination.IndexFreeTerminates | dsh-src/scripts/gen-config-catalog.ts:319-326 | the lookup ends on arbitrarily recursive declarations without indexed accesses |
| ConfigTermination.SelfIndexedTerminates | dsh-src/scripts/gen-config-catalog.ts:335-343 | an interface with a member typed by its own indexed member meets that condition, and every lookup in it ends |
| ConfigEndless.GrowingHeadsNeverEnd | dsh-src/scripts/gen-config-catalog.ts:381-387 | in any world, a declaration whose chain of first-evaluated types leads into a cycle that prepends a step never ends, for every non-empty path and every amount of fuel |
| ConfigEndless.TameHeadsDoNotGrow | dsh-src/scripts/gen-config-catalog.ts:319-326 | the condition for ending and the condition for not ending exclude each other |
| ConfigEndless.EndlessLookup | dsh-src/scripts/gen-config-catalog.ts:381-387 | an alias of its own indexed member is such a declaration |
| ConfigGrowth.DeclCloses | dsh-src/scripts/gen-config-catalog.ts:322-326 | where no step is used up on the way, a lookup that ends has seen every key it can enter, all siblings included |
| ConfigGrowth.GrowthNeverEnds | dsh-src/scripts/gen-config-catalog.ts:381-387 | there, a reachable cycle that prepends a step through any part of a type keeps every lookup of a non-empty path from ending |
| ConfigGrowth.GrowthDecides | dsh-src/scripts/gen-config-catalog.ts:319-326 | there, the lookup of a non-empty path ends exactly when no such cycle can be reached |
| ConfigTermination.DeclMoreFuel | dsh-src/scripts/gen-config-catalog.ts:317-403 | an answer found with some fuel is the answer with any more |
| ConfigWalk.Walk.IntoMembers | dsh-src/scripts/gen-config-catalog.ts:335-343 | the first property of the step's name decides, if there is one, with the seen keys its lookup leaves |
| ConfigWalk.Walk.Node | dsh-src/scripts/gen-config-catalog.ts:362-403 | walking a type gives the specified answer and leaves exactly the specified seen keys |
| ConfigWalk.Walk.Parts | dsh-src/scripts/gen-config-catalog.ts:367-376 | the parts are walked in turn on one shared set of seen keys |
| ConfigWalk.Walk.Decl | dsh-src/scripts/gen-config-catalog.ts:318-361 | entering a declaration gives the specified answer and leaves exactly the specified seen keys |
| ConfigWalk.Walk.Bases | dsh-src/scripts/gen-config-catalog.ts:348-359 | the bases are walked in turn on one shared set of seen keys |
| ConfigWalk.LookupPath | dsh-src/scripts/gen-config-catalog.ts:760-761 | missing is answered exactly when the path is absent for every completion and no key is met twice; found only when it is present for every completion, and where no key is met twice exactly then |
| ConfigPath.ParsePath | dsh-src/scripts/gen-config-catalog.ts:232-245 | the loops give, segment by segment, the name without its bracket pairs and one element step a pair |
| ConfigPath.ParseThenRender | dsh-src/scripts/gen-config-catalog.ts:231-245 | writing a parsed path gives the path back |
| ConfigPath.RenderThenParse | dsh-src/scripts/gen-config-catalog.ts:231-245 | parsing a written step list gives the list back |
| DeclarationPaste.Report | dsh-src/scripts/gen-config-catalog.ts:674-704 | a violation is reported only when the closure is ambiguous, and drops one mention |
| DeclarationPaste.Skip | dsh-src/scripts/gen-config-catalog.ts:695-697 | a declaration reached again under its own name changes nothing |
| DeclarationPaste.NoteImport | dsh-src/scripts/gen-config-catalog.ts:678-693 | an imported name is recorded once and keeps the loop's invariant |
| DeclarationPaste.PasteNew | dsh-src/scripts/gen-config-catalog.ts:706-714 | a new declaration is pasted and all its non-global names are queued |
| DeclarationPaste.AllMentionsClosed | dsh-src/scripts/gen-config-catalog.ts:709-714 | all mentions of all declarations are closed under resolution |
| DeclarationPaste.NeedsInOrder | dsh-src/scripts/gen-config-catalog.ts:709-714 | the non-global names are queued in the order in which the declaration mentions them |
| DeclarationPaste.ReportConflict | dsh-src/scripts/gen-config-catalog.ts:669-704 | whatever the branches report is a conflict of the kind reported |
| DeclarationPaste.TakeAndPaste | dsh-src/scripts/gen-config-catalog.ts:663-714 | a new declaration is pasted after those mentioned before it, and what it mentions waits behind everything queued |
| DeclarationPaste.PasteClosure | dsh-src/scripts/gen-config-catalog.ts:663-715 | the loop ends on cyclic references; without violations every non-global name of a pasted declaration is pasted or imported as it resolves, the two are disjoint and the root comes first; nothing outside any closed set of mentions is pasted; an unambiguous closure gives no violation, and every violation names a conflict there is; declarations are pasted breadth first, each where it is first mentioned |
| ComposedKeys.Folder.Fold | dsh-src/scripts/gen-config-catalog.ts:736-749 | a visit gives the keys of the packages it newly saw, all reached from its own, and leaves nothing they compose unseen or unreported |
| ComposedKeys.FoldComposed | dsh-src/scripts/gen-config-catalog.ts:735-750 | the keys are those of every package reachable through composition, each package once, the composing one first; exactly the uncatalogued packages composed by one of them are reported |
| EventFlow.Unwrap | dsh-src/scripts/gen-doc-graphs.ts:1183-1195 | peeling ends at an expression that is no wrapper |
| EventFlow.UnwrapExpression | dsh-src/scripts/gen-doc-graphs.ts:1183-1195 | the loop peels exactly the syntax-only wrappers |
| EventFlow.FiniteEvents | dsh-src/scripts/gen-doc-graphs.ts:1084-1091 | a name is returned exactly when it is in the finite value set of one of the leading two elements and no element before it has one |
| EventFlow.EventNamesFromArgumentList | dsh-src/scripts/gen-doc-graphs.ts:1079-1111 | the recursive walk over conditionals and identifiers computes the specified names, and ends |
| EventFlow.EventNamesFromDeclarations | dsh-src/scripts/gen-doc-graphs.ts:1102-1110 | the loop over a symbol's declarations gathers those of constants and helper parameters |
| EventFlow.EventNamesFromParameter | dsh-src/scripts/gen-doc-graphs.ts:1114-1125 | the loop over call sites gathers those of the arguments at the parameter's position |
| EventFlow.EventStep | dsh-src/scripts/gen-doc-graphs.ts:1079-1125 | at an unvisited expression a name is returned exactly when its literal has it or one of its sources returns it |
| EventFlow.SourcesAreSteps | dsh-src/scripts/gen-doc-graphs.ts:1093-1125 | one step leads exactly to both branches of a conditional, the initialiser of every constant declaration, and what every call passes at the position of a local helper parameter |
| EventFlow.RecoverySound | dsh-src/scripts/gen-doc-graphs.ts:1079-1125 | only names carried by array literals at the end of a flow path are returned |
| EventFlow.RecoveryComplete | dsh-src/scripts/gen-doc-graphs.ts:1079-1125 | a path that avoids the visited nodes carries the names of the literal at its end back |
| EventFlow.UniverseIsClosed | dsh-src/scripts/gen-doc-graphs.ts:1079-1125 | the expressions of a program are a finite set that the flow does not leave |
| EventFlow.RecoveryIsReachability | dsh-src/scripts/gen-doc-graphs.ts:1079-1125 | on every program, cyclic or not, the names are exactly those carried by the array literals that a flow path leads to |
| EventFlow.DispatchedEvents | dsh-src/scripts/gen-doc-graphs.ts:1079-1125 | the same for the walk that starts with nothing visited |
| WorkerPool.StepKeeps | dsh-src/scripts/benchmark-next-package-dependency.ts:189-197 | every step of every worker keeps the pool's invariant and uses up work left |
| WorkerPool.RunPools | dsh-src/scripts/benchmark-next-package-dependency.ts:189-197 | every state of every interleaving satisfies the invariant, and no run is longer than the work there was |
| WorkerPool.RunGoesOn | dsh-src/scripts/benchmark-next-package-dependency.ts:189-197 | a run that has not settled can take another step |
| WorkerPool.SettledCursor | dsh-src/scripts/benchmark-next-package-dependency.ts:187-197 | where the shared cursor stops does not depend on the interleaving |
| WorkerPool.SettledOutcome | dsh-src/scripts/benchmark-next-package-dependency.ts:182-199 | every settled run claims exactly the indices below that stop, each once and in order, stores exactly the successful outcomes among them, and fails exactly when one of them rejects |
| WorkerPool.MapsEverything | dsh-src/scripts/benchmark-next-package-dependency.ts:182-199 | with at least one job, defined values and no rejection, every value is mapped to its own operation's outcome |
| WorkerPool.BoundedConcurrency | dsh-src/scripts/benchmark-next-package-dependency.ts:189 | in any state of any run at most min(jobs, n) claimed operations have neither stored a result nor been rejected |
| BenchmarkCandidates.Installed | dsh-src/scripts/benchmark-next-package-dependency.ts:149-154 | the spread object's keys: dependencies, optional dependencies, and peers not marked optional |
| BenchmarkCandidates.ReachedPackages | dsh-src/scripts/benchmark-next-package-dependency.ts:140-158 | the queue drains, and the names reached, each once, are the least set with the target closed under installed packages that have a manifest |
| BenchmarkCandidates.LeastClosedUnique | dsh-src/scripts/benchmark-next-package-dependency.ts:140-158 | there is only one least closed set |
| BenchmarkCandidates.ComparesUnits | dsh-src/scripts/benchmark-next-package-dependency.ts:165 | the comparison is negative exactly when the first differing code unit is smaller, or the text ends first |
| BenchmarkCandidates.DiscoverBenchmarkCandidates | dsh-src/scripts/benchmark-next-package-dependency.ts:134-165 | the candidates are, each once and in ascending code unit order, exactly the members of the least closed set that are released, without policy, and have a peer other than Cordis |
| ArtifactFraming.FeedArtifacts | dsh-src/scripts/client-build-environment.ts:334-345 | the hash is fed exactly the framed stream of the listed artifacts; an empty build is refused |
| ArtifactFraming.ReadWrittenFrames | dsh-src/scripts/client-build-environment.ts:339-342 | reading a stream of length-prefixed records gives the records back |
| ArtifactFraming.PathThenContent | dsh-src/scripts/client-build-environment.ts:335-342 | the stream's records are each artifact's path and then its content, in list order |
| ArtifactFraming.StreamInjective | dsh-src/scripts/client-build-environment.ts:328-345 | equal streams come from equal lists of paths and contents |
| LinkScanner.SkipWhitespace | dsh-src/scripts/markdown.ts:84-88 | everything passed is white space, and the loop stops at the end or before a character that is not |
| LinkScanner.LabelEnd | dsh-src/scripts/markdown.ts:90-104 | the loop over escapes and nested brackets agrees with the recursive scan |
| LinkScanner.ScanStart | dsh-src/scripts/markdown.ts:107-119 | the destination starts after the label, its separator and white space, or the matching error is given |
| LinkScanner.ScanPointy | dsh-src/scripts/markdown.ts:120-125 | the loop for angle brackets agrees with the recursive scan |
| LinkScanner.ScanPlain | dsh-src/scripts/markdown.ts:127-139 | the loop over parentheses and escapes agrees with the recursive scan |
| LinkScanner.DestinationRange | dsh-src/scripts/markdown.ts:106-140 | the three scans together give the range or the error of the recursive scans |
| LinkGrammar.LabelPasses | dsh-src/scripts/markdown.ts:94-102 | the label scan passes over any balanced, escaped text without changing its depth |
| LinkGrammar.PlainPasses | dsh-src/scripts/markdown.ts:127-138 | the destination scan passes over any balanced, escaped text inside parentheses or without white space |
| LinkGrammar.BreakStops | dsh-src/scripts/markdown.ts:135-137 | white space outside parentheses stops the scan short of the destination's end |
| LinkGrammar.RecoversIff | dsh-src/scripts/markdown.ts:84-140 | for every label, separator, blanks (line endings included) and destination of the grammar, scanning the written link gives the destination's offsets exactly when no white space stands outside its parentheses and no literal backslash ends it before white space |
| LinkGrammar.PointyRecovered | dsh-src/scripts/markdown.ts:120-126 | a destination in angle brackets is always given back, without the brackets |
| LinkGrammar.UnclosedLabelRefused | dsh-src/scripts/markdown.ts:90-108 | without an opening bracket, or with balanced text after one that is never closed, no label is found |
| LinkGrammar.SeparatorRefused | dsh-src/scripts/markdown.ts:110-118 | after a label, a definition without a colon and a link or image without an opening parenthesis are refused, each with its own error |
| LinkGrammar.LateColon | dsh-src/scripts/markdown.ts:111-113 | the first colon after the label of a definition separates, wherever it stands |
| LinkGrammar.UnclosedAngleRefused | dsh-src/scripts/markdown.ts:120-126 | an angle bracket that is never closed is refused |
| LinkGrammar.NoBreakSpaceMissed | dsh-src/scripts/markdown.ts:135-137 | a valid destination with a no-break space is cut short |
| LinkGrammar.DanglingBackslashMissed | dsh-src/scripts/markdown.ts:130 | a valid destination that ends in a literal backslash before a title runs on |
| LinkGrammar.MarkdownDestination | dsh-src/scripts/markdown.ts:143-152 | for a node written from the grammar, plain and recoverable or in angle brackets, the result is the written destination at its offsets in the document; in general it is the scanned range moved to the node |
| LinkGrammar.DocumentRecovers | dsh-src/scripts/markdown.ts:143-152 | inside any document, a recoverable destination is cut out verbatim |
| JsText.JoinLinesKeepsWords | dsh-src/scripts/jsdoc.ts:45 | joining, collapsing and trimming lines keeps their words in order |
| JsText.JoinLinesIsWords | dsh-src/scripts/jsdoc.ts:45 | joined lines are the words of all lines, in order, with single spaces between them |
| JsDoc.Buffers.FlushItem | dsh-src/scripts/jsdoc.ts:46-49 | a pending item joins the pending list |
| JsDoc.Buffers.FlushList | dsh-src/scripts/jsdoc.ts:50-54 | a pending list becomes one block, split into items at its bullets |
| JsDoc.Buffers.PushPara | dsh-src/scripts/jsdoc.ts:57-58 | a pending paragraph becomes one block |
| JsDoc.Buffers.FlushPara | dsh-src/scripts/jsdoc.ts:55-59 | whatever is pending becomes the blocks it groups into, and nothing stays pending |
| JsDoc.Buffers.AddBullet | dsh-src/scripts/jsdoc.ts:68-75 | a bullet line joins what is pending without changing what all lines group into |
| JsDoc.Buffers.AddLine | dsh-src/scripts/jsdoc.ts:67-77 | the same for any prose line; a pending paragraph and a pending list never coexist |
| JsDoc.GroupRun | dsh-src/scripts/jsdoc.ts:67-77 | a run of paragraph or list lines that is over forms a block of its own |
| JsDoc.ParseLines | dsh-src/scripts/jsdoc.ts:60-81 | the prose is the rendered grouping of the lines before the first block tag, the mode is that of the last valid mode line, and a mode tag is noted wherever it stands |
| JsDoc.ParseJsDoc | dsh-src/scripts/jsdoc.ts:32-82 | prose, mode and the mode flag of a raw comment, its delimiters and decoration removed |
| JsDoc.AuthoredCommentRead | dsh-src/scripts/jsdoc.ts:33-37 | the inner lines of an authored comment, starred lines between delimiter lines, are the texts that were written, with an empty line at either end |
| JsDoc.StarRemoved | dsh-src/scripts/jsdoc.ts:37 | indentation, the star, one space and white space at the end are removed from a line, and nothing else |
| JsDoc.PlainLineKept | dsh-src/scripts/jsdoc.ts:37 | a line without a star loses its indentation and the white space at its end, and nothing else |
| JsDoc.ValidModeIff | dsh-src/scripts/jsdoc.ts:62 | a line states a mode exactly when its words are the tag and the mode name |
| JsDoc.LastModeIs | dsh-src/scripts/jsdoc.ts:62-63 | the mode is the one some line states and no later line overrides |
| JsDoc.ModeTagIff | dsh-src/scripts/jsdoc.ts:64 | a mode tag is the tag, however indented, not continued by a word character |
| JsDoc.TagIff | dsh-src/scripts/jsdoc.ts:65 | a tag line starts with an at sign, however indented |
| JsDoc.BlankIff | dsh-src/scripts/jsdoc.ts:67 | a blank line holds white space only |
| JsDoc.BulletIff | dsh-src/scripts/jsdoc.ts:68 | a bullet is a dash followed by white space |
| JsDoc.GroupKeepsWords | dsh-src/scripts/jsdoc.ts:45-79 | grouping and rendering keep every word of every line, in order |
| JsDoc.RenderedWords | dsh-src/scripts/jsdoc.ts:45-59 | a paragraph is rendered as its words with single spaces, a list as one such line an item |
| JsDoc.ProseIsConserved | dsh-src/scripts/jsdoc.ts:32-82 | the words of the prose are exactly the words of the lines before the first block tag |
| DeploymentTarget.WrittenVersionRead | dsh-src/scripts/check-macos-deployment-target.py:22-26 | parsing a version written with dots gives its components back, for every version |
| DeploymentTarget.ParsedIff | dsh-src/scripts/check-macos-deployment-target.py:22-26 | a text parses exactly when it is numbers joined with dots, and then to the values of those numbers |
| DeploymentTarget.WrittenClaimRead | dsh-src/scripts/check-macos-deployment-target.py:29-34 | a tag written for a version and a known architecture claims that version |
| DeploymentTarget.ClaimedIff | dsh-src/scripts/check-macos-deployment-target.py:29-34 | a tag claims a version exactly when it is macosx, two numbers and a known architecture joined with underscores, and then those numbers |
| DeploymentTarget.WrittenLineRead | dsh-src/scripts/check-macos-deployment-target.py:41-52 | a version line under its load command, with any white space around and inside, states exactly the version written |
| DeploymentTarget.SliceVersionIff | dsh-src/scripts/check-macos-deployment-target.py:41-52 | a version is read from a line exactly when the last load-command line before it is the one whose keyword the line starts with, and white space and the version are the rest |
| DeploymentTarget.SliceVersions | dsh-src/scripts/check-macos-deployment-target.py:39-52 | a version is listed exactly when some line states it under a load command that carries it |
| DeploymentTarget.MaxOf | dsh-src/scripts/check-macos-deployment-target.py:55 | the maximum is listed, and no listed version exceeds it in tuple order |
| DeploymentTarget.ParseOtoolDeploymentTarget | dsh-src/scripts/check-macos-deployment-target.py:37-55 | the line loop gives the tuple-order maximum of all slice versions, or nothing when there is none |
| DeploymentTarget.PaddedIsNumeric | dsh-src/scripts/check-macos-deployment-target.py:78-81 | comparing zero-padded tuples is comparing versions component by component |
| DeploymentTarget.TupleBoundsNumeric | dsh-src/scripts/check-macos-deployment-target.py:55-81 | a version that does not exceed another in unpadded tuple order does not exceed it numerically |
| DeploymentTarget.MaxDecides | dsh-src/scripts/check-macos-deployment-target.py:55-81 | the unpadded maximum exceeds the padded claim exactly when some slice version does |
| DeploymentTarget.CompatibleIff | dsh-src/scripts/check-macos-deployment-target.py:37-86 | an executable passes exactly when some line states a version and none states one numerically above the claim |
| DeploymentTarget.MeasureTargets | dsh-src/scripts/check-macos-deployment-target.py:93 | every executable gets the newest version its lines state, or the first one that states none is reported |
| DeploymentTarget.ValidateDeploymentTargets | dsh-src/scripts/check-macos-deployment-target.py:89-96 | validation succeeds exactly when there is nothing to check or the platform is known and every executable is within the claim; otherwise the first executable that states nothing is reported, else an unknown platform, else the first executable above the claim |

## Left out

- File system, globbing, git, npm, HTTP, child processes, timers and JSON: manifests, file lists, durations, tool output and graphs are inputs.
- The TypeScript parser and type checker: types, declarations, expressions and name resolution are datatypes and maps given as inputs; the search for exported declarations through re-exports is one of those maps.
- `keyof` and merged interface declarations in the lookup: the type operator is `readonly`, and an identifier has one declaration.
- ConfigTermination.LookupTerminates: one direction only for worlds with typed members, elements or bases on a growing cycle; `GrowthDecides` is exact without them, and the reading notes above say what lies between.
- ConfigWalk.LookupPath: asks for fuel with which the specification answers, because a method must end; where there is none, neither does the source's recursion.
- The premises under which a call site is attributed to a helper, the call-site cache and the listener side of the event graph: the calls of a helper are an input.
- Forwarded agent-event parameters and type-based string unions: an array element is given as finite, wider or skipped.
- ComposedKeys.FoldComposed: the composing package comes first; in which order the composed ones follow is not stated, as only the order of later reports depends on it.
- Code spans inside link labels, which the label scan does not treat specially.
- `localeCompare`: any strict total order on strings that is zero on equal strings only.
- Floating-point rounding of durations and sums: weights are reals. Weights need not be non-negative except for Graham's bound.
- Partitions.AssignWeightedPartitions: among equally light buckets it does not say which one is taken, although the heap always takes its root.
- SHA-256: the digest property stops at the byte stream. Paths are given as encoded bytes and in sorted order.
- The order in which the workers of a pool first run: the model allows every order, the host uses one. When `Promise.all` rejects, the remaining workers run on; the model's runs include those steps.
- `{@link}` rewriting, the final trim and `@param` parsing of JSDoc comments: the prose is the text before them.
- DeploymentTarget.ParseVersion: digits are the ASCII ones, where the source's pattern also accepts other decimal digits; splitting tool output into lines is an input.
- UTF-16 code units in scanned text: strings are sequences of characters, and offsets count those. Sorting of names does compare code units.
- Rendering of the partition configuration, the catalog pages and the diagrams, and the checks of member documentation.
- Region splicing, set-equality gates, append-only manifest checks, the other reachability loops of the scripts, the container gateway and the deployment material: they would add easy members only.
