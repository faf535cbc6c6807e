# Poetry's resolver and installer, modelled in Dafny

This project models the parts of Poetry that decide what gets installed and in which order, and proves
what they promise:

* **The version solver** (`src/poetry/mixology`): terms, incompatibilities, the assignment trail with its
  incremental index, unit propagation with its skip sets, conflict resolution with backjumping, and the
  search loop. `Mixology.ResolveVersion` is the summary: the solver always ends; what it returns fulfils
  every requirement and holds nothing that no chain of requirements leads to; and when it fails, a refutation
  made of facts alone excludes every solution.
* **What the solver relies on**: a repository's search rule, the solver's cache of searches, and the
  splitting of duplicate dependencies with overlapping markers.
* **What happens to a solution**: the depth-first search over its graph, depths and groups, the markers
  under which each group needs a package, the merge of packages with features, the operations that are
  computed from all this, and the executor that carries these out concurrently. `ScheduleWitnesses` says
  exactly which operations have finished, in every interleaving, when another one starts, and
  `ScheduleOverlaps` which ones may be executed at the same time; `Installations`
  says what this means for packages and what they require, and that a completed run leaves exactly what was
  asked for, if that is not two different packages of one name.
* **Lazy wheels**: the record of downloaded byte ranges (inclusive ranges, as in section 14.1.2 of
  RFC 9110) and the sparse local file that is to mirror the remote one.

## How to read it

`Options`, `Conditions` and `Priorities` are shared helpers. The solver is built up in the order `Terms`,
`Incompatibilities`, `Providers`, `Trails`, `PartialSolutions`, `Resolution`, `Ranking`, `SolverStates`,
`SolverSearches`, `NeededPackages`, `VersionSolvers`, `Mixology`; around it stand `Repositories`, `RepositoryProviders`,
`SearchCaches`, `CachedSearches` and `MarkerSplitting`. From a solution to its markers lead `Graphs`,
`DepthFirst`, `SolvedPackages`, `PathMarkers`, `FeatureMarkers`, `MarkerDescents`, `MarkerPasses` and
`MarkerCases`; to an installation `FeatureMerges`, `SolutionGraphs`, `Transactions`, `Schedules`,
`ScheduleInvariants`, `ScheduleRuns`, `ScheduleOrders`, `ScheduleWitnesses`, `ScheduleOverlaps`, `Installations`
and `InstallationCases`.
`ByteRanges` and `LazyFiles` stand alone.

Code that updates objects is modelled by classes with the same fields (`PartialSolution`,
`VersionSolver`, `DependencyCache`, `Search`, `Calculation`, `MergeIntervals`, `LazyFile`) whose methods are
proved against functions and predicates on values. The executor is a system of steps, since its point is
what the main thread and the workers may do to each other. All lemmas carry `{:induction false}`, so that
nothing rests on inductions that are not written out.

A version constraint is a finite set of versions, and a term denotes a set of outcomes, an outcome being
a selected version or "not selected" (`Terms.Span`). A marker is a set of environments. Choices that
heuristics make (which unsatisfied package next, which of the allowed versions, which element a set gives up
first) are arbitrary, so that every statement holds for all heuristics. What a search returns, what a
version requires, whether an operation fails and what a server answers are parameters.

## What is false of the code, and exactly when

* `_ensure_downloaded` seeks to the start of the request and not of the gap
  (`src/poetry/inspection/lazy_wheel.py:483`). `LazyFiles.MirrorKeptExactlyWhenSafe` proves that a request
  keeps the local file a mirror, whatever the server holds, if and only if nothing is missing or the last
  missing range begins where the request begins, which then is the only missing range;
  `LazyFiles.OverlappingReadCorrupts` is a concrete request that does not.
* A root that depends on a package of its own base name, say foo on foo[x], puts that package at depth -1,
  where the passes of `calculate_markers` never come (`src/poetry/puzzle/solver.py:405`); validation looks
  for such dependencies in `tool.poetry` only (`src/poetry/factory.py:367-369`).
  `MarkerPasses.Calculation.Calculate` and `MarkerPasses.TransitiveInfos` prove that the loop ends if and only
  if no package but the root at depth -1 has an edge to a package at depth 0 or more, and that it makes at
  most two passes then. `MarkerCases.OwnExtraIsBlocked` is a tree of three packages on which it does not end.
* When packages depend on each other in a circle, the loop may end with markers that are too small. Without
  edges between packages of one depth, an environment is in the final marker if and only if some path whose
  edges all apply has at most one edge that does not lead to a greater depth
  (`MarkerPasses.TransitiveInfos`, `MarkerPasses.WithinAtEnd`), so that the markers are complete if and only if
  no environment needs a second one (`MarkerPasses.CompleteExactly`). `MarkerCases.FourAreIncomplete`: four
  packages in a line that depend on their neighbours, of which the root needs the first in one environment
  and the last in another, whatever the depths are that the search finds; `MarkerCases.ThreeAreIncomplete`:
  three of them, if the search meets them from the first on.
* Packages do not always wait for what they require. Packages of a lock file, which an installation takes by
  default (`src/poetry/config/config.py:167`), all have depth 0 (`src/poetry/packages/locker.py:195-197`),
  and so no ordinary one of them is certain to be installed before another one
  (`Installations.LockedAreUnordered`, `InstallationCases.TwoLocked`). After a new solution depths are those of
  the graph, but the requirements of features are added to base packages, which keep the depths they have
  (`src/poetry/puzzle/solver.py:192-217`): all dependencies of a package have been installed in every run when
  it starts if and only if each one that is installed is deeper than the package
  (`Installations.AllDependenciesFirstExactly`). On acyclic graphs this holds where no feature of the package is
  less deep than its base (`FeatureMerges.RequiredIsDeeper`); in `InstallationCases.RequiredComesLast`, on an
  acyclic graph, a dependency starts, in every run, after the package that requires it.
* When a task fails while its group is still being handed out, the rest of the group never is, and the unsafe
  operations that were handed out before are executed all the same (`src/poetry/installation/executor.py:179`
  and `src/poetry/installation/executor.py:227`). So an operation that follows an unsafe one of its priority,
  and is not unsafe itself, is certain to have finished before it if and only if no task of its own may be
  executed before it is handed out: `ScheduleWitnesses.AlwaysFirstExactly`;
  `InstallationCases.UnsafeWithoutTheRest` is a group of three.
* "No versions satisfy this constraint" becomes a permanent fact although the repository would offer a yanked
  version to a pin (PEP 592), unless it is a pre-release and these are forbidden. A failure always excludes
  the selections whose versions are never unavailable. Right failures exclude all selections, for all projects
  over a repository, if and only if nothing in the repository is yanked for pins to get:
  `RepositoryProviders.FailuresAreFinalExactlyWhenNothingYanked`. For every repository and every such yanked
  version in it, `RepositoryProviders.YankedFailureIsNotFinal` gives a project for which failing is a right
  answer of the solver although the yanked version fulfils all requirements.
* For the same reason a cached search may be narrowed, but a pin must not be widened: filtering is right
  unless a pin becomes a range and the pinned version is yanked (`Repositories.NarrowingRightExactly`). The
  solver never does this: along every run, backjumps included, each search narrows the searches of its
  package that the cache still has (`VersionSolvers.VersionSolver.LookUp`), and a set of versions that
  narrows a pin is that pin (`CachedSearches.SubsetNarrows`).
* `_relation`, `_intersect` and `difference` go wrong about some empty constraints
  (`src/poetry/mixology/term.py:173-177`): `Terms.RelationRightExactly`, `Terms.IntersectRightExactly` and
  `Terms.DifferenceRightExactly` say about which. Such a term can reach the solver only from a requirement
  that contradicts itself, like ">2,<1": a dependency that is alone with its name is passed on as it is
  (`src/poetry/puzzle/provider.py:673-676`), and becomes a negative term in an incompatibility. Empty
  overrides are dropped (`src/poetry/puzzle/provider.py:389-392`). The solver is modelled for requirements
  that admit some version, and keeps all its terms non-empty then.
* Two packages of one name that the project asks for are both operated on, and only one of them can be there
  in the end. What is asked for is what is there, whatever the order of the operations, if and only if all
  packages of a name that are asked for come to the same: `Transactions.AnyOrderSettles`;
  `Transactions.TwoVersionsUnsettled` are two versions that do not.
* A version that requires its own package in a version that admits itself trips the assertion in
  `src/poetry/mixology/incompatibility.py:58`. This is an outcome of its own, and the only way in which the
  solver ends without an answer.

## Model

| member | source | states |
|---|---|---|
| Terms.SpanIsASetOfOutcomes | src/poetry/mixology/term.py:121-158 | complement, intersection, containment and disjointness of what terms denote are the set operations on outcomes, "not selected" included |
| Terms.RelationMeaning | src/poetry/mixology/term.py:53-119 | the classification is exactly containment and disjointness of the two sets of outcomes |
| Terms.IntersectMeaning | src/poetry/mixology/term.py:121-151 | the result denotes the common outcomes, and there is no result exactly when there are none |
| Terms.DifferenceMeaning | src/poetry/mixology/term.py:153-158 | the result denotes the outcomes of the first term that the second excludes, and there is no result exactly when the first implies the second |
| Terms.RelationRightExactly | src/poetry/mixology/term.py:53-119 | for all terms, empty constraints included: the classification is right if and only if the left term is not positive with an empty constraint |
| Terms.IntersectRightExactly | src/poetry/mixology/term.py:121-177 | the intersection is right if and only if not both terms are negative with empty constraints |
| Terms.DifferenceRightExactly | src/poetry/mixology/term.py:153-177 | the difference is right if and only if it does not take a positive term with an empty constraint from a negative one with an empty constraint |
| Incompatibilities.CoalesceByName | src/poetry/mixology/incompatibility.py:43-74 | the dictionary loops combine the terms of each package in the order of first mention, and fail when what the terms of a package so far have in common and the next one do not intersect |
| Incompatibilities.CoalesceFailsExactly | src/poetry/mixology/incompatibility.py:52-59 | the assertion fails if and only if no selection whatsoever makes all the terms true; two of them need not exclude each other |
| Incompatibilities.NewIncompatibility | src/poetry/mixology/incompatibility.py:22-77 | root removal, short cut and coalescing together yield the incompatibility that the constructor is specified to build |
| Incompatibilities.CoalesceMeaning | src/poetry/mixology/incompatibility.py:43-74 | coalescing changes nothing about which selections make all terms true |
| Incompatibilities.BuildMeaning | src/poetry/mixology/incompatibility.py:22-77 | what is built is violated by exactly the selections, among those that select the root, that make all given terms true; the failing assertion is reached only with terms that none makes true |
| Incompatibilities.BuildNames | src/poetry/mixology/incompatibility.py:22-41 | what is built concerns exactly the packages of the given terms, save that a derived incompatibility of several terms does without the selected root |
| Incompatibilities.BuildDistinct | src/poetry/mixology/incompatibility.py:43-74 | an incompatibility has at most one term for each package |
| Incompatibilities.BuildHolds | src/poetry/mixology/incompatibility.py:52-59 | from terms that all hold on a trail the construction cannot fail, and yields terms that hold |
| Providers.FactsMembers | src/poetry/puzzle/provider.py:400-453 | every fact about a version is entailed, is about that version, and has at most one further term, about another package |
| Providers.SolutionsRespectFacts | src/poetry/puzzle/provider.py:400-453 | no solution violates a root, dependency, Python or no-versions fact |
| Providers.EntailedExcludesSolutions | src/poetry/mixology/version_solver.py:402-437 | an incompatibility whose leaves are facts, if every selection of the root violates it, excludes all solutions |
| Trails.AllowedShrinks | src/poetry/mixology/assignment.py:15-62 | what a longer prefix of the trail allows lies within what a shorter one allows |
| Trails.LevelsSorted | src/poetry/mixology/partial_solution.py:117-129 | decision levels never fall along the trail |
| Trails.CutBelow | src/poetry/mixology/partial_solution.py:124-129 | popping from the end removes exactly the assignments above a level |
| Trails.SatisfierUnique | src/poetry/mixology/partial_solution.py:170-202 | there is only one position at which a term starts to hold |
| PartialSolutions.ReplaySpan | src/poetry/mixology/partial_solution.py:143-168 | the term kept for a package denotes exactly the outcomes that all its assignments together allow |
| PartialSolutions.PartialSolution.Relation | src/poetry/mixology/partial_solution.py:207-216 | the answer from the index is subset exactly when the whole trail implies the term, and disjoint exactly when it excludes it |
| PartialSolutions.PartialSolution.Register | src/poetry/mixology/partial_solution.py:143-168 | one package's entry is combined with the new term and moves from negative to positive when it has to; all other entries stay |
| PartialSolutions.PartialSolution.Assign | src/poetry/mixology/partial_solution.py:110-115 | after an assignment the index is again the replay of the trail |
| PartialSolutions.PartialSolution.Derive | src/poetry/mixology/partial_solution.py:94-108 | one derivation with its cause is appended at the current level, and trail, index and decisions still agree |
| PartialSolutions.PartialSolution.Decide | src/poetry/mixology/partial_solution.py:75-92 | one decision is appended one level higher, the decisions gain exactly this version, and an attempt is counted after backtracking |
| PartialSolutions.PartialSolution.Backtrack | src/poetry/mixology/partial_solution.py:117-141 | the trail becomes its prefix up to the level, and index and decisions become those of replaying that prefix |
| PartialSolutions.PartialSolution.Satisfier | src/poetry/mixology/partial_solution.py:170-202 | an assignment is found exactly when the trail implies the term, and it is the first one up to which it does |
| Resolution.DeriveJustified | src/poetry/mixology/version_solver.py:287-303 | ruling out the open term of a unit leaves its package an outcome, keeps every assignment justified by its cause, and contradicts the unit from then on |
| Resolution.DifferenceExcluded | src/poetry/mixology/version_solver.py:364-373 | what the satisfier leaves over was already excluded before it, so its level exists; the guard at line 431 never drops it, and it never occurs for a decision |
| Resolution.PriorCauseFollows | src/poetry/mixology/version_solver.py:408-437 | whoever violates the terms of the next incompatibility violates the current one or the cause it is combined with |
| Resolution.PriorCause | src/poetry/mixology/version_solver.py:402-437 | the construction succeeds, and its result is violated by the trail strictly before the previous satisfier |
| Resolution.PriorCauseEntailed | src/poetry/mixology/version_solver.py:402-437 | the result is entailed by the external facts of the two incompatibilities it is made of |
| Resolution.FailureIsUniversal | src/poetry/mixology/incompatibility.py:103-106 | an incompatibility that counts as failure is violated by every selection of the root |
| Resolution.BackjumpIsUnit | src/poetry/mixology/version_solver.py:383-400 | on the shorter trail all terms but one still hold, and that one is neither implied nor excluded |
| Ranking.TrailBounded | src/poetry/mixology/version_solver.py:185-189 | over a finite universe neither the trail nor the decision level can grow beyond a bound fixed in advance |
| Ranking.RankFalls | src/poetry/mixology/version_solver.py:185-242 | appending an assignment, also after dropping whole levels, makes a natural number smaller: the counts per level grow lexicographically |
| SolverStates.SkippedIsContradicted | src/poetry/mixology/version_solver.py:213-215 | whatever is skipped has a term that the current trail excludes |
| SolverStates.ContradictedExcludes | src/poetry/mixology/version_solver.py:213-215 | an incompatibility with such a term is not violated, so that skipping hides no conflict |
| SolverStates.SkipsExtend | src/poetry/mixology/version_solver.py:290-300 | the skip sets stay right when the trail grows |
| SolverStates.SkipsAdd | src/poetry/mixology/version_solver.py:269-293 | adding a contradicted incompatibility under the current level keeps them right |
| SolverStates.SkipsShorten | src/poetry/mixology/version_solver.py:387-396 | what is recorded for the levels that remain is still contradicted after a backjump |
| SolverStates.SettledByPending | src/poetry/mixology/version_solver.py:185-189 | a decision whose facts were all dealt with stays settled on every longer trail |
| SolverStates.SourcedNoVersions | src/poetry/mixology/version_solver.py:582-590 | one more fact that there are no versions, about an undecided package, leaves every decision settled and every known incompatibility resting on facts that have been found |
| NeededPackages.NeededIsComplete | src/poetry/mixology/version_solver.py:623-633 | the part of a selection that chains of requirements lead to from the root has everything that it requires |
| NeededPackages.NeededRespectsFacts | src/poetry/mixology/version_solver.py:402-437 | this part violates no fact that the solver has found |
| NeededPackages.DecidedIsNeeded | src/poetry/mixology/version_solver.py:623-633 | whatever is decided in the end is in this part: nothing on the trail asks for more |
| VersionSolvers.VersionSolver.AddIncompatibility | src/poetry/mixology/version_solver.py:635-650 | the incompatibility becomes known and is listed under exactly the packages it mentions; nothing comes to be listed twice and no list disappears |
| VersionSolvers.VersionSolver.Examine | src/poetry/mixology/version_solver.py:260-288 | the scan tells apart a contradicted, a violated, a unit and an undetermined incompatibility, by what the whole trail says of all terms |
| VersionSolvers.VersionSolver.PropagateIncompatibility | src/poetry/mixology/version_solver.py:244-303 | a conflict is reported exactly when all terms hold, a derivation is made exactly for a unit, and every other trail is left alone; all state invariants are kept |
| VersionSolvers.VersionSolver.SatisfierOf | src/poetry/mixology/partial_solution.py:202 | for a term that holds the "is not satisfied" error is out of reach |
| VersionSolvers.VersionSolver.MostRecentSatisfier | src/poetry/mixology/version_solver.py:346-373 | the scan finds the term that came to hold last, the assignment that made it hold, what that leaves over, and the highest level that everything else needs |
| VersionSolvers.StopsAtUnit | src/poetry/mixology/version_solver.py:383-400 | when resolution stops, the level it goes back to is strictly lower and the incompatibility is a unit there |
| VersionSolvers.DecisionIsAboveItsConflict | src/poetry/mixology/version_solver.py:383-386 | the second stop condition adds nothing: a decision is always above the level that the rest of the conflict needs |
| VersionSolvers.VersionSolver.ClearLevels | src/poetry/mixology/version_solver.py:387-393 | the skip sets of the dropped levels, and no others, are forgotten, and what remains recorded is still contradicted |
| VersionSolvers.VersionSolver.Backjump | src/poetry/mixology/version_solver.py:387-396 | the trail is cut at the level and all state invariants hold again |
| VersionSolvers.VersionSolver.Resolve | src/poetry/mixology/version_solver.py:402-438 | one step yields an entailed incompatibility that is violated strictly earlier on the trail |
| VersionSolvers.VersionSolver.FindRootCause | src/poetry/mixology/version_solver.py:319-438 | the resolution loop ends, with a refutation or with an entailed incompatibility and a lower level at which it is a unit |
| VersionSolvers.VersionSolver.ResolveConflict | src/poetry/mixology/version_solver.py:305-448 | a conflict ends in a refutation, or in a known incompatibility that is a unit on the shortened trail |
| VersionSolvers.VersionSolver.Restart | src/poetry/mixology/version_solver.py:219-238 | after a conflict the root cause always yields a derivation, so the two assertions hold, and the rank has fallen |
| VersionSolvers.VersionSolver.Propagate | src/poetry/mixology/version_solver.py:200-242 | propagation ends, with a refutation or in a state where every decision is settled and what was pending is contradicted, unless a backjump lowered the rank |
| VersionSolvers.VersionSolver.AddFacts | src/poetry/mixology/version_solver.py:598-611 | all facts of a version become known, and the verdict is whether for one of them every term about other packages holds |
| VersionSolvers.VersionSolver.AddNoVersions | src/poetry/mixology/version_solver.py:582-590 | the new fact forbids what is required, so that propagation has to make progress, and everything decided stays settled, by all such facts found so far |
| VersionSolvers.VersionSolver.ChoosePackageVersion | src/poetry/mixology/version_solver.py:561-621 | nothing is left to decide, or a decision was added whose facts are pending, or something pending is not contradicted yet, or a self-dependency was met |
| VersionSolvers.FinishedFulfils | src/poetry/mixology/version_solver.py:623-633 | once nothing is unsatisfied the decisions contain the root, one offered version for each package, and everything that any of them requires |
| VersionSolvers.SettledAvailable | src/poetry/mixology/version_solver.py:582-590 | no version selected in the end is one that a search has come up without, for any provider |
| VersionSolvers.FailureRefutes | src/poetry/mixology/version_solver.py:448 | a failure comes with an incompatibility whose external facts exclude every selection of the root |
| VersionSolvers.RoundProgresses | src/poetry/mixology/version_solver.py:187-189 | every round lowers the rank, or keeps it and leaves something that makes the next one lower it |
| VersionSolvers.VersionSolver.Solve | src/poetry/mixology/version_solver.py:172-198 | the search ends with versions that fulfil everything and of which none is superfluous, a refutation, or a self-dependency, for every order of choices |
| Mixology.AnswersMeaning | src/poetry/mixology/__init__.py:15-18 | a failure excludes every solution, a result is one, and where offered versions stay available the answer decides solvability |
| Mixology.ResolveVersion | src/poetry/mixology/__init__.py:15-18 | total correctness of the solver from any provider: it ends, results fulfil every requirement and consist of packages that a chain of requirements leads to, failures are refutations, and, without self-dependencies, solvability is decided where what is offered once is offered for every set of versions that it is in |
| Repositories.FindPackages | src/poetry/repositories/repository.py:36-65 | the loop finds, in order, the pinned version or the versions in the range that are not yanked: of these the releases and those of direct origin, or all if pre-releases are allowed; and if there are none such, all, unless pre-releases are forbidden |
| Repositories.FoundExactly | src/poetry/repositories/repository.py:36-65 | the same of what is found, as a function of versions, flags and constraint alone |
| Repositories.OfferedInOrder | src/poetry/puzzle/provider.py:304-311 | what is offered is what was found, each version as often: yanked versions last, then pre-releases last unless they are allowed, then higher versions first |
| Repositories.SearchNarrowed | src/poetry/mixology/version_solver.py:83-108 | filtering an earlier, wider search gives the same ordered list as searching anew, if anything is left |
| Repositories.NarrowingRightExactly | src/poetry/repositories/repository.py:43-65 | for every narrower constraint, pins and ranges alike: what is left of the earlier offer is what a new search offers, if and only if no pin of a yanked version becomes a range |
| Repositories.UnpinningBreaksNarrowing | src/poetry/repositories/repository.py:43-47 | a concrete search for which it is not |
| RepositoryProviders.CoherentExactlyWhenNothingYanked | src/poetry/repositories/repository.py:42-65 | what a repository offers once it offers for every constraint that admits it, if and only if nothing in it is yanked that a pin gets |
| RepositoryProviders.YankedFailureIsNotFinal | src/poetry/mixology/version_solver.py:582-590 | for every repository and every yanked version in it that a pin gets there is a project for which failing is a right answer of the solver, and for which a selection with that version fulfils everything |
| RepositoryProviders.FailuresAreFinalExactlyWhenNothingYanked | src/poetry/mixology/version_solver.py:448 | for all projects over a repository: right failures exclude every selection, if and only if the repository has no yanked version that a pin gets, whatever the project allows of pre-releases |
| RepositoryProviders.FailureIsFinal | src/poetry/mixology/version_solver.py:448 | over a repository without yanked versions no selection at all fulfils the requirements after a failure |
| SearchCaches.DependencyCache.Compute | src/poetry/mixology/version_solver.py:83-108 | the filtered or fresh list is the one that a direct search returns, in the same order |
| SearchCaches.DependencyCache.Search | src/poetry/mixology/version_solver.py:110-138 | the cached, memoised search answers as a direct one, and pushes its answer unless it is the list on top |
| SearchCaches.DependencyCache.ClearLevel | src/poetry/mixology/version_solver.py:140-144 | clearing the highest level leaves exactly the stacks, and the lists by level, of what was pushed below it |
| SearchCaches.DependencyCache.ClearAbove | src/poetry/mixology/version_solver.py:387-394 | clearing levels in descending order leaves exactly what was pushed up to the level gone back to |
| SearchCaches.ClearingRestores | src/poetry/mixology/version_solver.py:71-80 | whatever was pushed in between at higher levels, clearing them gives back the state from before |
| SolverSearches.SearchNarrows | src/poetry/mixology/version_solver.py:83-108 | what the trail allows a package now lies within every search for it that is still on record |
| SolverSearches.SearchesExtend | src/poetry/mixology/version_solver.py:83-108 | assigning keeps every search on record wider than what the trail up to its level allows |
| SolverSearches.SearchesShorten | src/poetry/mixology/version_solver.py:387-396 | so does a backjump that clears the levels it leaves |
| VersionSolvers.VersionSolver.LookUp | src/poetry/mixology/version_solver.py:573-577 | in every state a run can be in, a search is for a subset of each earlier search for its package that no backjump has cleared, and none of these was made at a higher level |
| CachedSearches.SolverMayAsk | src/poetry/mixology/version_solver.py:110-138 | so the cache may be asked in place of the provider, whatever the project allows of pre-releases for the package |
| CachedSearches.Ask | src/poetry/mixology/version_solver.py:110-138 | the cache answers with the versions that the provider offers, whatever the project allows of pre-releases for the package, and what it has on record stays what the solver has |
| CachedSearches.GoBack | src/poetry/mixology/version_solver.py:387-396 | after a backjump the cache has on record the searches that the solver has left |
| MarkerSplitting.GroupBySource | src/poetry/puzzle/provider.py:882-900 | there is one group for each source, in the order in which the sources first occur, and it holds all dependencies of that source, in their order and as often as they occur |
| MarkerSplitting.MergeByConstraint | src/poetry/puzzle/provider.py:902-928 | one dependency per source and constraint is left, in force in exactly the environments in which one of that kind was |
| MarkerSplitting.MergingKeepsDisjoint | src/poetry/puzzle/provider.py:1035-1038 | merging dependencies with exclusive markers leaves them exclusive |
| MarkerSplitting.MeaningOnly | src/poetry/puzzle/provider.py:966-968 | what splitting owes to an environment depends only on which kinds are in force there |
| MarkerSplitting.CombineUsed | src/poetry/puzzle/provider.py:989-1008 | the combined constraint is the intersection of those used, and there is none exactly when their sources differ; an intersection with nothing left is dealt with in `Combine` |
| MarkerSplitting.SplitMerged | src/poetry/puzzle/provider.py:970-1033 | the product over all combinations of markers splits off, exactly once, each environment where it matters: the same applies somewhere with a supported Python, somewhere with the extras asked for, and in the target; there is no result exactly for a conflict in such an environment |
| MarkerSplitting.ResolveOverlappingMarkers | src/poetry/puzzle/provider.py:949-1038 | the result has pairwise exclusive markers, covers exactly the environments that matter, and says in each of them what the given dependencies say together there, "not required" included; it fails exactly for a conflict in one that matters |
| MarkerSplitting.SplitsMeaning | src/poetry/puzzle/provider.py:955-965 | in each environment with a supported Python and the extras asked for, or in the target if there is one, exactly one new dependency applies, and its constraint is the intersection of the given ones that apply, or empty if none does |
| Graphs.Graph.ChildIsLegitimate | src/poetry/puzzle/solver.py:327-355 | nodes inherit the groups of a root dependency that leads to their package |
| DepthFirst.Search.Walked | src/poetry/puzzle/solver.py:280-290 | walking an edge records it among the back edges and unites its marker with what is recorded for child, parent and groups, and changes nothing else recorded |
| DepthFirst.Search.Visit | src/poetry/puzzle/solver.py:268-292 | a visit walks every edge of every node it reaches exactly once, leaves open what was open, and lists each finished node before its children unless they are on a cycle with it |
| DepthFirst.Search.VisitDepth | src/poetry/puzzle/solver.py:357-366 | the depth is at least -1 and is the highest that one of the parents accounts for |
| DepthFirst.Search.Combine | src/poetry/puzzle/solver.py:253-263 | every package gets exactly the list of its own nodes |
| DepthFirst.Search.Aggregate | src/poetry/puzzle/solver.py:369-387 | the greatest depth, the union of groups, and optional only if all nodes are |
| SolvedPackages.LegitimateFound | src/poetry/puzzle/solver.py:241-265 | the search finds every node that some dependency of the root leads to |
| SolvedPackages.DepthGrows | src/poetry/puzzle/solver.py:357-366 | on an acyclic graph a child is deeper than its parent, and at least as deep within a base name |
| SolvedPackages.NonNegative | src/poetry/puzzle/solver.py:357-366 | on any graph, cycles included, no depth is below -1, the root's is -1, and another node is at -1 only if it has the root's base name and the root depends on some package of that base name |
| SolvedPackages.Aggregate | src/poetry/puzzle/solver.py:184-190 | exactly the needed packages are found; a package's groups are those of the root dependencies that lead to it, and it is optional if all these are; on acyclic graphs depths are those of longest paths, and packages that depend on each other are at different depths if all dependencies of the root are of one kind; edge markers are exactly recorded |
| PathMarkers.NeededBecause | src/poetry/puzzle/solver.py:411-440 | a package needed in an environment is a dependency of the root there, or of a package that is needed there |
| PathMarkers.EntriesInOrder | src/poetry/puzzle/solver.py:411-426 | looking up a parent or a group never fails: parents are packages of the solution and their groups are groups of the child |
| PathMarkers.RootBrings | src/poetry/puzzle/solver.py:427-440 | the root contributes to a group's marker exactly where one of its dependencies in that group applies |
| PathMarkers.ParentBrings | src/poetry/puzzle/solver.py:413-426 | a parent contributes exactly where it is needed and one of its edges applies |
| PathMarkers.TransitiveSound | src/poetry/puzzle/solver.py:406-441 | from sound markers of the parents come sound markers: each environment has a path from the root whose edges all apply |
| PathMarkers.TransitiveExact | src/poetry/puzzle/solver.py:406-441 | from exact markers of the parents come exact markers |
| FeatureMarkers.TransitiveNearly | src/poetry/puzzle/solver.py:406-441 | with parents of smaller depth that lack at most what packages with features bring to their bases, a package itself lacks at most that |
| FeatureMarkers.TransitiveFull | src/poetry/puzzle/solver.py:406-441 | and it lacks nothing once the packages with features whose base it is are exact |
| MarkerPasses.UnknownWhileWaiting | src/poetry/puzzle/solver.py:416-419 | a package that a non-root package at depth -1 has an edge to never has all its parents known |
| MarkerPasses.Calculation.TransitiveMarker | src/poetry/puzzle/solver.py:407-440 | the loops unite exactly what the parents bring, and report a missing parent exactly when there is one |
| MarkerPasses.Calculation.Pass | src/poetry/puzzle/solver.py:404-441 | after a pass every package from depth 0 on has markers for all its groups; a pass is never complete when a parent is left out, and is complete when all packages had markers before or parents always come first; on acyclic graphs markers are exact after a pass that begins with exact ones for packages without features, or is complete; without edges between equal depths each of the first two passes takes exactly the paths into account that have one more edge not leading to a greater depth |
| MarkerPasses.Calculation.Calculate | src/poetry/puzzle/solver.py:402-441 | the loop never ends when some non-root package at depth -1 has an edge to one at depth 0 or more; on all other graphs, cycles included, it ends after at most two passes, and after one where parents always come first |
| MarkerDescents.TransitiveWithin | src/poetry/puzzle/solver.py:406-441 | if parents of smaller depth have the markers of paths with at most so many edges that do not lead to a greater depth, and the others those of one fewer, a package gets exactly the markers of such paths |
| MarkerPasses.TransitiveInfos | src/poetry/puzzle/solver.py:184-191 | on any graph every marker holds only where a path of applying edges needs the package for that group; if the loop ends, it holds wherever one does on acyclic graphs whose edges within a base name lead from packages with features to their bases, and exactly where one with at most one edge not to a greater depth does on all graphs without edges between equal depths; the loop ends if and only if no parent is left out, which holds whenever the root does not depend on a package of its own base name |
| MarkerPasses.WithinAtEnd | src/poetry/puzzle/solver.py:402-441 | when the loop has ended after one or two passes, the markers are those of the paths with at most one edge that does not lead to a greater depth |
| MarkerPasses.CompleteExactly | src/poetry/puzzle/solver.py:402-441 | then they are complete if and only if every package that is needed in an environment is needed by such a path |
| MarkerCases.OwnExtraIsBlocked | src/poetry/puzzle/solver.py:402-441 | a project foo that depends on foo[x], which depends on bar: whatever the search over this tree may have found, the loop does not end |
| MarkerCases.LineIsIncomplete | src/poetry/puzzle/solver.py:402-441 | packages in a line that depend on their neighbours: if the depths fall twice in one direction the loop ends with markers that are too small |
| MarkerCases.FourAreIncomplete | src/poetry/puzzle/solver.py:402-441 | for four packages or more they are too small whatever the search has found |
| MarkerCases.ThreeAreIncomplete | src/poetry/puzzle/solver.py:402-441 | for three they are if the depths rise along the line |
| Transactions.OperateOnResults | src/poetry/puzzle/transaction.py:82-143 | each solved package gets its operation and no other is added; the operations that are carried out are about different names if and only if those of the solved packages are; the names the project asks for are collected |
| Transactions.UninstallSurplus | src/poetry/puzzle/transaction.py:145-180 | exactly the orphaned and, when synchronizing, the surplus packages are uninstalled, as they are installed, each once, system packages excepted |
| Transactions.SortedIsInOrder | src/poetry/puzzle/transaction.py:182-189 | uninstalls come first, then deeper packages before less deep ones, then names, then versions |
| Transactions.OutcomeOfAll | src/poetry/puzzle/transaction.py:41-61 | if the operations for a name agree, what is installed in the end under it depends on them alone and not on the order, and without any it stays as it was |
| Transactions.AnyOrderSettles | src/poetry/puzzle/transaction.py:45-189 | carrying out all operations in any order leaves under a name the solved package that is asked for, or the installed one if it may stay, or, where nothing is asked for, what was there unless it is to be removed, if and only if all packages of the name that are asked for come to the same |
| Transactions.TwoVersionsUnsettled | src/poetry/puzzle/transaction.py:82-143 | for two versions of one name that are both asked for it does not |
| Transactions.CalculateOperations | src/poetry/puzzle/transaction.py:45-189 | for any results the sorted operations are complete and in order, one per name exactly if the solved packages lead to one each, and have that outcome |
| Transactions.UpdatesExactly | src/poetry/puzzle/transaction.py:106-136 | an update is made exactly for what the project asks for and what is installed in another version, or differs otherwise and is not a legacy package over one installed without a source type |
| Transactions.InstallsExactly | src/poetry/puzzle/transaction.py:82-143 | an installation is carried out exactly for what is asked for, is not installed, and is no directory that is to be left out |
| Transactions.SkipsExactly | src/poetry/puzzle/transaction.py:82-143 | an installation is skipped exactly for what is asked for and may stay as it is installed, and for optional packages that are not asked for, not installed and not left out |
| Transactions.UninstallsExactly | src/poetry/puzzle/transaction.py:145-180 | an installed package is uninstalled exactly if that is wanted, the system does not provide it, and it is no longer in the solution; or, when synchronizing, is not asked for and is neither the project nor pip |
| ScheduleInvariants.StepKeeps | src/poetry/installation/executor.py:153-248 | every step of the main thread or of a worker keeps the bookkeeping of tasks, queues, groups and finished operations consistent |
| ScheduleRuns.HigherPriorityFirst | src/poetry/installation/executor.py:164-235 | in every interleaving, once an operation has started, pip and all operations of higher priority have finished, the latter without failure |
| ScheduleRuns.UnsafeRunAlone | src/poetry/installation/executor.py:182-228 | while something is uninstalled, or installed to be developed from a directory or a Git repository, nothing else is executed |
| ScheduleRuns.RepositoriesNeverShared | src/poetry/installation/executor.py:198-222 | two operations on one git repository are never executed at the same time |
| ScheduleOverlaps.OverlapExactly | src/poetry/installation/executor.py:178-228 | two operations are in flight at once in some run if and only if they have the same priority, do not work on one Git repository, and each of them is skipped, or neither uninstalls nor installs something to be developed from a directory or a repository |
| ScheduleRuns.EachOnce | src/poetry/installation/executor.py:178-228 | no operation starts twice, and in a completed run each one has started and finished, none failed |
| ScheduleRuns.EndsAsItShould | src/poetry/installation/executor.py:230-248 | a final state is a halt exactly when a failure or an interrupt asked for it |
| ScheduleRuns.NeverStuck | src/poetry/installation/executor.py:153-248 | every state of a run that is not final has a next one |
| ScheduleRuns.RunsAreFinite | src/poetry/installation/executor.py:153-248 | no run has more steps than a fixed multiple of the number of operations |
| FeatureMerges.MergeFeatures | src/poetry/puzzle/solver.py:192-217 | base packages get exactly the requirements of their packages with features, other than of themselves, each once and behind their own; packages with features disappear, and base packages keep depth, groups and markers |
| FeatureMerges.RequiresMerged | src/poetry/puzzle/solver.py:192-217 | an installed package requires what its own node or one of its feature nodes has an edge to, under another base name |
| FeatureMerges.RequiredIsDeeper | src/poetry/puzzle/solver.py:192-217 | on acyclic graphs what an installed package requires is deeper, if no feature of it is less deep than it is itself |
| SolutionGraphs.SelectedIsFound | src/poetry/puzzle/solver.py:186-191 | the search over the graph of a solution finds every package that the solver has selected |
| SolutionGraphs.AggregateSolvedPackages | src/poetry/puzzle/solver.py:184-219 | so looking up a selected package never fails, and the whole aggregation gives base packages the markers, depths and groups that the search has found and the requirements of their features |
| ScheduleOrders.StepOrderly | src/poetry/installation/executor.py:178-228 | every step keeps the order within a group: unsafe operations and those of one repository in the order of the list, unsafe ones after the workers' tasks, and a group is cut short only by a task that failed early |
| ScheduleOrders.NothingMoreHandedOut | src/poetry/installation/executor.py:179-180 | once something has failed or an interrupt has come, the group is not handed out any further, and nothing behind that point ever starts |
| ScheduleWitnesses.FirstUnlessShutDownExactly | src/poetry/installation/executor.py:164-235 | in all runs, as long as nothing fails or interrupts them, an operation has finished when another one has started, if and only if it has the higher priority; or the same one and only the other one is unsafe; or it comes earlier and both are unsafe, or both are safe and on one repository |
| ScheduleWitnesses.AlwaysFirstExactly | src/poetry/installation/executor.py:178-235 | in all runs whatsoever, if and only if that holds and, where it follows an unsafe operation, no task of its own in its group precedes it; a run is given for every other pair |
| Installations.InstalledFirstExactly | src/poetry/puzzle/transaction.py:76-143 | the same for two packages of arbitrary depths that are installed or updated |
| Installations.LockedAreUnordered | src/poetry/packages/locker.py:195-197 | of two packages with the depth of a lock file there is a run in which an ordinary one starts before the other one has finished |
| Installations.AllDependenciesFirstExactly | src/poetry/puzzle/transaction.py:76-143 | all dependencies of an ordinary package that are installed have finished in every run when it starts, if and only if all of them are deeper than it |
| Installations.DependenciesFirst | src/poetry/puzzle/solver.py:357-366 | with the depths of an acyclic graph, and along its edges before features are merged: in every run, when the operation of a package has started, those of all packages that it leads to, under another base name, have finished without failure |
| Installations.UninstalledFirst | src/poetry/puzzle/transaction.py:182-189 | whatever is uninstalled has been, in every run, when an installation or an update starts |
| InstallationCases.TwoLocked | src/poetry/packages/locker.py:195-197 | two operations of depth 0, each of which starts first in some run |
| InstallationCases.UnsafeWithoutTheRest | src/poetry/installation/executor.py:178-228 | three operations, of which the second fails early and the unsafe first one is executed without the third |
| InstallationCases.RequiredComesLast | src/poetry/puzzle/solver.py:192-217 | an acyclic graph on which a merged package has finished, in every run, when a package that it requires starts |
| Installations.CompletedRunSettles | src/poetry/installation/executor.py:153-248 | a completed run, whatever its interleaving, leaves under a name what the project asks for, if and only if it does not ask for two things |
| ByteRanges.BisectSeparates | src/poetry/inspection/lazy_wheel.py:165-166 | in a sorted list the position searched for is the only one with smaller elements before it and no smaller ones from it on |
| ByteRanges.OverlapMeaning | src/poetry/inspection/lazy_wheel.py:165-167 | the bisections cut out exactly the recorded ranges that meet the request |
| ByteRanges.MergeIntervals.Missing | src/poetry/inspection/lazy_wheel.py:140-148 | the ranges yielded are ordered, disjoint, non-empty, and exactly the part of the request that is not covered |
| ByteRanges.MergeIntervals.Record | src/poetry/inspection/lazy_wheel.py:149 | afterwards exactly the old coverage and the request are covered, by ordered disjoint ranges |
| ByteRanges.RecordKeepsDisjoint | src/poetry/inspection/lazy_wheel.py:149 | replacing the slice keeps the two arrays sorted and the ranges disjoint |
| ByteRanges.RecordCovers | src/poetry/inspection/lazy_wheel.py:149 | the merged record covers a byte exactly if the old one did or the request contains it |
| LazyFiles.MirrorKeptExactlyWhenSafe | src/poetry/inspection/lazy_wheel.py:468-485 | a request keeps the file a mirror for all contents exactly when nothing is missing or the last missing range begins where the request does |
| LazyFiles.UnsafeDownloadCorrupts | src/poetry/inspection/lazy_wheel.py:483 | for every other request there is a server's file that it spoils |
| LazyFiles.OverlappingReadCorrupts | src/poetry/inspection/lazy_wheel.py:483 | a concrete request that overwrites a byte already downloaded |
| LazyFiles.BrokenOffMirrors | src/poetry/inspection/lazy_wheel.py:478-485 | a download that breaks off in a safe request leaves every byte on record right, and nothing new on record |
| LazyFiles.LazyFile.EnsureDownloaded | src/poetry/inspection/lazy_wheel.py:468-485 | the position is restored; success records the request and failure records nothing; safe requests keep the mirror either way |
| LazyFiles.LazyFile.Read | src/poetry/inspection/lazy_wheel.py:322-344 | the bytes up to the size asked for or the end are returned and the position moves past them; in a safe read of a mirror they are the server's |

## Left out

Assumptions and simplifications:

- Incompatibilities are values: two equal ones that Python keeps as separate objects are one here; equal incompatibilities behave alike in every place that is modelled.
- Version constraints are finite sets over a finite universe of names and versions, which may hold versions that are never offered; representation and parsing of versions, constraints and markers belong to another library.
- Dependencies that reach the solver have a non-empty constraint; those that contradict themselves are not modelled beyond `Terms`.
- One source per package, no direct origins, no features and no transitive markers inside the solver; these rest on types that are not part of this repository.
- Selection heuristics, the preference for locked versions and the order in which Python's sets and dictionaries yield their elements are arbitrary choices.
- The solver model searches its provider directly and keeps a record of its searches; `CachedSearches` puts the cache in the provider's place, for one repository with one package per version.
- A global fixpoint of unit propagation is not claimed: an incompatibility learned in a conflict may be a unit unnoticed after a later backjump. That the result fulfils everything is proved from the facts of the decided packages instead.
- Root dependencies without a group are excluded from path markers; the source asserts that there are none.
- MarkerPasses.TransitiveInfos: runs the loop up to a given number of passes, for every such number, since the loop itself may not end. On cyclic graphs with edges between packages of one depth only soundness of markers is stated, since the markers then depend on the order in which a dictionary yields the packages of that depth.
- SolutionGraphs.AggregateSolvedPackages: likewise breaks the loop off after a given number of passes.
- Terms.RelationMeaning: the branches for dependencies of different sources or with transitive markers are not part of this model.
- Terms.IntersectMeaning: likewise, the branch for dependencies that are not compatible.
- Terms.DifferenceMeaning: likewise.
- Terms.RelationRightExactly: for dependencies of one source and without transitive markers, as above.
- Terms.IntersectRightExactly: likewise.
- Terms.DifferenceRightExactly: likewise.
- RepositoryProviders.YankedFailureIsNotFinal: says which answers are right, not which one a run of the solver gives.
- RepositoryProviders.FailuresAreFinalExactlyWhenNothingYanked: likewise, quantifies over right answers.
- Providers.EntailedExcludesSolutions: concludes for incompatibilities that every selection of the root violates, which those of a failure are.
- Providers.FactsMembers: the conditions on Python ranges, transitive markers and overrides are one parameter of the provider, which says whether a version is excluded and what it requires.
- PartialSolutions.PartialSolution.Satisfier: the branch for assignments from another source is not part of this model.
- VersionSolvers.VersionSolver.ChoosePackageVersion: a locked version is chosen only if it is offered; that a locked package may be used without a search for it is not modelled.
- MarkerSplitting.ResolveOverlappingMarkers: works on values, so that the source's assignment of the merged marker to the caller's first dependency object is not captured.
- ByteRanges.MergeIntervals.Missing: the generator is modelled as the list of gaps and, once all of them have been consumed, `Record`; a consumer that stops early records nothing.
- LazyFiles.LazyFile.Read: the first chunk, which is fetched when the file is opened, and positions beyond the end are not modelled.
- Installations.DependenciesFirst: speaks about the graph before features are merged and about dependencies with another base name; what holds after the merge is stated separately.
- FeatureMerges.MergeFeatures: a requirement is modelled as the edges to the packages that meet it, so that one that no package meets is left out.
- ScheduleRuns.HigherPriorityFirst: an interrupt that reaches the main thread outside the waiting and serial phases leaves `execute` altogether and is not a step of the model.
- What an operation does to the environment beyond setting, replacing or removing one name.

Left out because they decide nothing or are settled by reading one function: failure texts and reporting,
progress and console output, HTTP and ZIP handling, pip and git calls, lock files, configuration, merging of
packages from several override runs, hash and link choosing.
