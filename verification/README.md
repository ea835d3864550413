# Proofs about the code-graph engine

The code-graph engine parses a repository into a graph of modules, classes and functions, keeps the graph in step with
the files, and answers questions about it: which functions are clones of each other, which are dead, how data flows,
who can have caused a crash.  This project models the algorithms and protocols behind those answers and proves that
they meet their specifications.  Each Dafny module covers one part of the engine:

| module | what it is about |
|---|---|
| `Clones`, `CandidatePairs` | branch sets, similarity, and the prefix-filtered search for similar pairs |
| `Cliques` | enumeration of the maximal cliques of the threshold graph, with pivoting and a cap |
| `Nesting`, `SimilarGroups` | members inside other members, and the groups that are reported for a clique |
| `DeadCode` | the fixed point of liveness over calls, classes made in functions, and overrides |
| `Debounce` | the debounce protocol of the file watcher as a step system, and its handler |
| `FlowVerdict`, `CrashCorrelation` | the breadth-first searches for data flows and for the callers of a failing function |
| `Dotted`, `Tries`, `FunctionRegistry` | the registry of qualified names: dictionary, trie, name index, suffix cache |
| `IncrementalSync`, `Rehydration` | incremental indexing against a hash cache, and restoring base lists of classes |
| `SqlNames` | normalization of SQL routine names |
| `Embedder` | batched embedding through a server, and its cache |
| `AstCache` | the bounded least-recently-used cache of syntax trees |
| `Orders`, `Options` | total orders, sorting, counting; optional values |

Code that changes things step by step is a method with loops, or a class whose methods state their whole new state in
terms of a specification function; what the engine promises is then proved about that function, over all inputs, all
runs or all reachable states.  Check everything with `dafny verify dfyconfig.toml`.

Seven promises do not hold of the code as it stands.  For each there is a concrete input or a general family for which
it fails, and the condition under which it holds:

* The candidate search is exact if and only if the threshold is positive (`CandidatePairs.FilterExactIff`).  The command
  line also accepts 0, where disjoint pairs meet the threshold and are never candidates.
* A pair of similar entries always lies in a listed clique that is reported, but the two need not appear in one group.
  `SimilarGroups.SeenTogetherIff` says exactly when they do: both survive in the clique's own group, or both survive
  beside some entry that does not (`SimilarGroups.HiddenPairExists` has a report in which a pair is nowhere).
* A class that becomes live because a live function defines it is not followed, so what it calls can be reported dead
  (`DeadCode.ClassEdgeNotFollowed`).  The live set is closed under all rules exactly when no class the rounds leave
  unfollowed calls something that is not live (`DeadCode.OutcomeClosedIff`).  `DeadCode.InnerClosed` is a condition on
  the graph alone that is enough for every graph, and exact where nothing but the factory rule leads to those classes
  (`DeadCode.InnerClosedEnough`, `DeadCode.ClosedIffInner`).
* Deleting a name from the registry can drop other names from the trie, because segments that start with two
  underscores are taken for reserved keys; it loses nothing exactly when `SafeToDelete` holds
  (`FunctionRegistry.DeleteCompleteIff`, `FunctionRegistry.DunderLost`).  For the same reason prefix queries leave such
  names out.
* The indexed and the scanned answer of `find_ending_with` differ exactly for a dot-free suffix that is a registered
  name itself (`FunctionRegistry.IndexScanIff`).
* A file that could not be read drops out of the hash cache but not out of the graph.  When it is back it counts as new,
  and what the graph had for it stays; when it is gone instead, it stays altogether (`IncrementalSync.UnreadableReturns`,
  `IncrementalSync.UnreadableVanishes`).  The graph mirrors the cache exactly as long as every run accounts for every
  file the graph holds (`IncrementalSync.MirroredIff`, `IncrementalSync.HistoryMirroredIff`).
* A server response with a null embedding is accepted, and shifts later embeddings onto earlier snippets, also in the
  cache.  A call ends that way, in an index error, exactly when all its requests are accepted and a response to one of
  them has a null (`Embedder.EmbedCodeBatch`, `Embedder.NullPoisonsCache`).

Three more facts limit what may be claimed.  The file watcher processes the updates of a path in event order as long as
no two of them are in flight together, and any two that are can be processed the other way round (`Debounce.TidyIff`,
`Debounce.OrderKept`, `Debounce.OrderLost`).  A burst is taken after a quiet period or the maximum wait by its recorded
timer, but an event for a path whose callback has started is taken by that callback without one
(`Debounce.QuietUnlessSuperseded`, `Debounce.SupersededTakesNewEvent`); in a run without such an event no burst is taken
early (`Debounce.UndisturbedTakesQuiet`).  Unquoted SQL text has the key of exactly the
quoted name it folds to if and only if it folds to text without dots and leader characters
(`SqlNames.BareMeansFoldedIff`).

## Model

| member | source | states |
|---|---|---|
| `Clones.JaccardIs` | codebase_rag/duplicates.py:340-342 | the similarity times the size of the union is the size of the overlap, and two empty sets have similarity 0 |
| `Clones.OverlapAtLeast` | codebase_rag/duplicates.py:191-196 | similarity of at least t > 0 forces an overlap of at least t times either branch set's size |
| `Clones.SizeRatioBound` | codebase_rag/duplicates.py:386-389 | the similarity of two branch sets never exceeds the ratio of their sizes, so the size test only rejects what the similarity test would |
| `CandidatePairs.LeastSharedPosition` | codebase_rag/duplicates.py:191-196 | the pigeonhole step: in any total order the least shared branch is among the first \|a\| - \|a * b\| + 1 branches of a |
| `CandidatePairs.QualifyingPairShares` | codebase_rag/duplicates.py:189-201 | two branch sets at a positive threshold share a branch inside both prefixes, whatever the frequencies branches are ranked by |
| `CandidatePairs.PairSharesBranch` | codebase_rag/duplicates.py:219-221 | only branch sets with a common branch are ever paired |
| `CandidatePairs.NonPositiveThreshold` | codebase_rag/duplicates.py:218-220 | at a threshold of zero or less the candidates are exactly the pairs with a common branch, although every pair meets the threshold |
| `CandidatePairs.FilterExactIff` | codebase_rag/duplicates.py:186-201 | prefix filtering loses no qualifying pair of any entries under any ranking, if and only if the threshold is positive |
| `CandidatePairs.PrefixIs` | codebase_rag/duplicates.py:216-221 | a branch of an entry is in its prefix iff fewer of its branches have fewer carriers, or as many and an earlier name, than the prefix is long; the prefix has size - r + 1 branches, where r is the least overlap of one or more that is at least t times the size less the epsilon |
| `CandidatePairs.PrefixRarest` | codebase_rag/duplicates.py:219-220 | no branch of a prefix is carried by more entries than one left out of it, nor by as many with a later name |
| `CandidatePairs.QualifyingCandidate` | codebase_rag/duplicates.py:189-201 | for a positive threshold every pair at the threshold is a candidate |
| `CandidatePairs.BranchFrequency` | codebase_rag/duplicates.py:202-205 | the frequency of a branch is the number of entries that carry it |
| `CandidatePairs.AddPosition` | codebase_rag/duplicates.py:220-221 | adding an entry appends its position to the posting of each of its prefix branches and to no other |
| `CandidatePairs.PrefixIndex` | codebase_rag/duplicates.py:210-222 | the index lists under each branch, in ascending order, exactly the positions of the entries that have it in their prefix |
| `CandidatePairs.PairsFromIndex` | codebase_rag/duplicates.py:225-237 | all distinct pairs of the postings unless truncated; truncated exactly when there are more than the budget, and then exactly the budget is returned |
| `CandidatePairs.IndexedCandidates` | codebase_rag/duplicates.py:206-207 | the pairs in the postings are exactly the pairs of entries with a common indexed branch, stated without the ranking |
| `CandidatePairs.CandidatePairSet` | codebase_rag/duplicates.py:186-207 | an untruncated scan returns exactly the pairs with a common indexed branch, where what is indexed is fixed by how many entries carry each branch and by the threshold; for a positive threshold these include every pair at the threshold; truncated iff there are more than the budget |
| `Cliques.EdgeInMaximalClique` | codebase_rag/duplicates.py:447-451 | both ends of every edge of the threshold graph are together in some maximal clique |
| `Cliques.PivotMet` | codebase_rag/duplicates.py:500-504 | every clique still to be found below a node of the recursion uses a candidate outside the pivot's neighbourhood |
| `Cliques.BranchReported` | codebase_rag/duplicates.py:504-512 | one branch of the recursion adds exactly the cliques that use its vertex and no vertex branched on before, so none is reported twice |
| `Cliques.BestPivot` | codebase_rag/duplicates.py:500-503 | the pivot is the first vertex with the most neighbours among the candidates |
| `Cliques.Enumeration.Expand` | codebase_rag/duplicates.py:493-513 | a call adds, without repetition, maximal cliques of its own region only, all of them unless it stops at the budget, and tells which |
| `Cliques.Enumeration.Branch` | codebase_rag/duplicates.py:504-513 | the loop over the candidates outside the pivot's neighbourhood completes the region or stops at the budget |
| `Cliques.Enumeration.Descend` | codebase_rag/duplicates.py:505-512 | one iteration moves its vertex from the candidates to the excluded vertices with exactly its cliques added |
| `Cliques.MaximalCliqueList` | codebase_rag/duplicates.py:476-517 | on any finite simple graph: only maximal cliques of two or more vertices, none twice, in list order; all of them when there are at most cap, exactly cap otherwise; truncated if and only if there are more than cap |
| `Nesting.MarkerInvisible` | codebase_rag/duplicates.py:248-266 | a registration marker at the end of a qualified name never changes how the name compares |
| `Nesting.LineDropped` | codebase_rag/duplicates.py:248-266 | an at sign with a number is dropped from a qualified name |
| `Nesting.LineAndColumnDropped` | codebase_rag/duplicates.py:248-266 | so is one with two numbers joined by an underscore |
| `Nesting.RestKept` | codebase_rag/duplicates.py:248-266 | any other character stays; with the two laws before, this fixes the substitution of markers |
| `Nesting.SignatureDropped` | codebase_rag/duplicates.py:259-266 | a parenthesised group without parentheses in it is dropped |
| `Nesting.OthersKept` | codebase_rag/duplicates.py:259-266 | any other character stays, a parenthesis that starts no such group included; with the law before, this fixes the substitution of signatures |
| `Nesting.NestedMeaning` | codebase_rag/duplicates.py:240-292 | nested iff in the same file, within the lines, and either strictly inside on both ends or with the normalized name of the outer one and a dot in front of the rest |
| `Nesting.NestedIrreflexive` | codebase_rag/duplicates.py:275-292 | nothing is nested in itself |
| `Nesting.NestedTransitive` | codebase_rag/duplicates.py:275-292 | nesting is transitive, with its two ways of being nested in any combination |
| `Nesting.OutermostKeeps` | codebase_rag/duplicates.py:330-337 | pruning keeps every uncontained member with its multiplicity and no contained one |
| `Nesting.DropContainedKeeps` | codebase_rag/duplicates.py:314-337 | a member is kept if and only if no member of the list contains it |
| `Nesting.SurvivingContainer` | codebase_rag/duplicates.py:323-326 | every dropped member has a container that is kept |
| `Nesting.SomethingSurvives` | codebase_rag/duplicates.py:314-337 | pruning a nonempty list leaves at least one member |
| `SimilarGroups.EdgeMeaning` | codebase_rag/duplicates.py:383-392 | an edge is exactly a pair at the threshold, not both without branches, with members of which neither is part of the other; at a positive threshold the exception never applies |
| `SimilarGroups.ThresholdAdjacency` | codebase_rag/duplicates.py:395-404 | the adjacency built from the pairs links exactly the pairs that qualify, in both directions, with no isolated vertex |
| `SimilarGroups.SupplementalMeaning` | codebase_rag/duplicates.py:353-380 | the sub-cliques emitted are exactly those of the fully pruned entries that have a partner containing none of their members |
| `SimilarGroups.SupplementalSingle` | codebase_rag/duplicates.py:364-379 | an entry has one sub-clique, the ascending list of itself and the others of the clique that contain none of its members, if none of its members was kept and there is such another, and none otherwise |
| `SimilarGroups.SupplementalAppend` | codebase_rag/duplicates.py:371-380 | the sub-cliques of several entries are theirs in turn |
| `SimilarGroups.EmissionPairwise` | codebase_rag/duplicates.py:413-422 | every emission of a clique, supplemental ones included, is pairwise joined by edges |
| `SimilarGroups.SupplementalKeeps` | codebase_rag/duplicates.py:356-363 | a fully pruned entry keeps at least one member in the sub-clique emitted for it |
| `SimilarGroups.CliqueShowsTwo` | codebase_rag/duplicates.py:464-467 | a clique of entries without inner nesting always keeps two members, so its group is never skipped |
| `SimilarGroups.SeenTogetherIff` | codebase_rag/duplicates.py:353-380 | two entries of a clique are seen together in some emission iff both survive in its own group, or both survive beside some entry that does not |
| `SimilarGroups.HiddenPairExists` | codebase_rag/duplicates.py:447-451 | four concrete entries of which two are at the threshold, not nested, and shown together by no group of any complete report |
| `SimilarGroups.SimilarityAtLeast` | codebase_rag/duplicates.py:428-432 | the similarity of a group is the greatest lower bound of its pairwise similarities |
| `SimilarGroups.GroupOfFrom` | codebase_rag/duplicates.py:425-438 | the group shown for a list of similar entries has the similarity of their least similar pair, the node count of the largest entry, and each member that no other one contains, as often as the entries list it, by path and first line, and otherwise in the order of the entries |
| `SimilarGroups.EmitGroup` | codebase_rag/duplicates.py:465-472 | a group is added exactly when it shows two members and no earlier one shows the same names, and its contents are as described for a shown group |
| `SimilarGroups.EmitClique` | codebase_rag/duplicates.py:465-472 | the emissions of a clique are treated in their order; each is reported, under its own or an equal set of names |
| `SimilarGroups.EmitGroups` | codebase_rag/duplicates.py:462-473 | the groups are, in order, the emissions of the cliques less those that show fewer than two members or the names of an earlier one |
| `SimilarGroups.CliquePairwise` | codebase_rag/duplicates.py:447-451 | every two entries of a clique of the threshold graph clear the threshold |
| `SimilarGroups.FlatCliqueGroup` | codebase_rag/duplicates.py:464-472 | a listed clique of entries without inner nesting yields a group with the names of its kept members |
| `SimilarGroups.SimilarGroupList` | codebase_rag/duplicates.py:441-473 | every group comes from a listed maximal clique of the threshold graph, is pairwise at the threshold, and has the least similarity, the largest node count and the sorted outermost members of its entries; the groups are the first emissions with their names, in order; truncated iff a candidate pair or a clique beyond its budget exists; otherwise every maximal clique is listed and, for a positive threshold, every pair at the threshold that is more than nesting lies in a listed one whose emissions are all reported |
| `DeadCode.Walk` | codebase_rag/dead_code.py:475-489 | the walk returns the least set with the live symbols and with everything that the frontier and whatever it comes across call, and records what it added |
| `DeadCode.LeastFromUnique` | codebase_rag/dead_code.py:475-489 | there is one such set, so the order in which symbols are taken makes no difference |
| `DeadCode.SurfaceClasses` | codebase_rag/dead_code.py:763-771 | all classes of the frontier become live and all their methods that were not live become roots, nothing else |
| `DeadCode.OverrideRoots` | codebase_rag/dead_code.py:774-780 | the roots found are what the least such set along override edges adds: all transitive overriders of what was revived |
| `DeadCode.Round` | codebase_rag/dead_code.py:760-785 | a round computes the round function of the graph |
| `DeadCode.RoundKeeps` | codebase_rag/dead_code.py:749-785 | a round leaves only what it added to be expanded, adds nothing without a reason, and leaves only surfaced classes unfollowed |
| `DeadCode.SettledLeast` | codebase_rag/dead_code.py:733-785 | the rounds end in the least set with the roots that is closed under calls, the factory-class rule and the override rule, but for the unfollowed classes |
| `DeadCode.CalledLeast` | codebase_rag/dead_code.py:713-731 | the first walk reaches the least set closed under calls that has the roots, and the second the least one that has the final roots as well |
| `DeadCode.AllRootsIff` | codebase_rag/dead_code.py:718-730 | a symbol is a root in the end iff it is a given one, or it is decorated, the first walk does not reach it, and some symbol that walk reaches defines it |
| `DeadCode.LiveIff` | codebase_rag/dead_code.py:733-785 | a symbol is live iff it is a root or another live symbol leads to it: by a call or reference, as what it overrides, or as the function that makes its class |
| `DeadCode.LiveExplained` | codebase_rag/dead_code.py:713-785 | put together: live iff a given root, or a decorated definition of a symbol reached from them, or led to by another live symbol |
| `DeadCode.OutcomeLeast` | codebase_rag/dead_code.py:713-785 | the outcome function of the graph is live in that sense, and what calls alone reach is followed |
| `DeadCode.Expand` | codebase_rag/dead_code.py:752-785 | the loop over rounds ends where the rounds of the graph end |
| `DeadCode.DeadSymbols` | codebase_rag/dead_code.py:713-787 | the dead symbols are the candidates outside the outcome, a function of the graph and the roots, when no name is both a class and a method; for every graph they are the candidates outside a least live set, and a candidate is dead iff it is no given root, no decorated definition of a symbol that calls reach from the roots, and no live symbol leads to it |
| `DeadCode.OutcomeClosedIff` | codebase_rag/dead_code.py:764-772 | for every graph: the live set is the least one closed under all three rules iff no class the rounds leave unfollowed calls something that is not live |
| `DeadCode.UnfollowedLive` | codebase_rag/dead_code.py:733-785 | what is live without following any class that calls alone do not reach is live, and nothing is live that the three rules do not make live |
| `DeadCode.InnerClosedEnough` | codebase_rag/dead_code.py:764-772 | a condition on the graph alone that is enough: none of the classes defined in functions that is live without following them calls something that is not |
| `DeadCode.ClosedIffInner` | codebase_rag/dead_code.py:764-772 | it is exact when nothing but the factory rule makes one of those classes live |
| `DeadCode.NoClassEdges` | codebase_rag/dead_code.py:737-747 | when classes defined in functions have no edges of their own, the live set is the one least set closed under all three rules |
| `DeadCode.ClassEdgeNotFollowed` | codebase_rag/dead_code.py:764-772 | a graph whose outcome has a live class and not the symbol it references, which the least closed set has |
| `Debounce.RecordedKept` | realtime_updater.py:151-219 | at each release of the lock a path has a pending event iff it has a first-event time iff it has a recorded timer, which is armed or firing; every step keeps this |
| `Debounce.AccountedKept` | realtime_updater.py:163-222 | every step keeps each accepted event in exactly one place: pending, in flight, processed once, or replaced by a later event for the same path |
| `Debounce.TimedKept` | realtime_updater.py:149-207 | every step keeps the recorded deadline at max(last, min(last + debounce, first + max wait)), later only by the time between reading the clock and starting the timer |
| `Debounce.NotEarlyKept` | realtime_updater.py:182-189 | no callback starts before its deadline |
| `Debounce.StepConsistent` | realtime_updater.py:142-227 | all four together are kept by every step |
| `Debounce.RunConsistent` | realtime_updater.py:142-227 | they hold after every run of every interleaving |
| `Debounce.SoleIff` | realtime_updater.py:165-219 | every armed timer is the recorded timer of its path, and a step keeps this iff it is no callback that removes the record of another timer that is still armed |
| `Debounce.NoneLostIff` | realtime_updater.py:165-219 | every armed timer and every callback that has started has its record, and a step keeps this iff it is no dispatch between the expiry of the timer of its path and that timer's callback |
| `Debounce.EventFate` | realtime_updater.py:209-227 | after any run an accepted event was processed at most once, and if it is neither processed nor waiting it was replaced by a later event for its path |
| `Debounce.LatestProcessed` | realtime_updater.py:209-227 | once no timer is left and no update waits, the latest event of every path has been processed |
| `Debounce.WorkShrinks` | realtime_updater.py:209-227 | without new events the timers and updates run out |
| `Debounce.PromptStep` | realtime_updater.py:169-189 | with prompt timers, one step keeps every burst within its maximum wait |
| `Debounce.PromptBound` | realtime_updater.py:169-189 | with prompt timers no burst waits longer than the maximum wait plus the longest wait of a dispatch for the lock, over any run |
| `Debounce.QuietUnlessSuperseded` | realtime_updater.py:179-189 | a burst taken by its recorded timer has been quiet for the debounce time or has waited the maximum wait |
| `Debounce.OwnTakesQuiet` | realtime_updater.py:151-219 | over every run in which no callback meets the record of another timer, each path has at most its recorded timer armed, and every event a callback takes has been quiet for the debounce time or has waited the maximum wait |
| `Debounce.UndisturbedOwn` | realtime_updater.py:165-219 | every run without a dispatch between an expiry and its callback is such a run |
| `Debounce.UndisturbedTakesQuiet` | realtime_updater.py:151-219 | so from the start no such run takes an event early |
| `Debounce.SupersededTakesNewEvent` | realtime_updater.py:163-166 | from any reachable state with a callback that has started, a dispatch for its path followed by the callback takes the new event, with a quiet period iff the maximum wait is over |
| `Debounce.SupersededTimerTakesNewEvent` | realtime_updater.py:163-166 | a run in which a cancelled timer whose callback had started takes a newer event at once |
| `Debounce.TidyIff` | realtime_updater.py:209-227 | from a state with the stages of each path in order, a step keeps them so iff it sends no update of a path while another is in flight |
| `Debounce.OrderKept` | realtime_updater.py:209-227 | runs of such steps process the updates of every path in the order of its events |
| `Debounce.OrderLost` | realtime_updater.py:222-227 | from any state with two updates of a path in flight there is a run that processes them the other way round |
| `Debounce.UpdatesCanOvertake` | realtime_updater.py:211-227 | a run in which two updates of one path are processed in the wrong order |
| `Debounce.CodeChangeEventHandler.DispatchEvent` | realtime_updater.py:142-207 | the handler's dictionaries and timers after an event are those of the step system: the recorded timer of the path is cancelled if it is still armed and no other one, a new one is armed and recorded, and the first-event time is kept |
| `Debounce.CodeChangeEventHandler.Schedule` | realtime_updater.py:151-207 | the same for the part under the lock |
| `Debounce.CodeChangeEventHandler.TakePending` | realtime_updater.py:209-219 | a callback takes the pending event of its path, whichever it is, and clears the path |
| `FlowVerdict.WalkSeen` | codebase_rag/flow_verdict.py:97-120 | with all levels below a bound settled, every walk up to that bound ends at a node already seen, no deeper than the walk is long |
| `FlowVerdict.NoShorterFlow` | codebase_rag/flow_verdict.py:97-120 | no flow is shorter than the level from which the sink was found |
| `FlowVerdict.NoFlow` | codebase_rag/flow_verdict.py:97-120 | when everything reached is settled there is no flow |
| `FlowVerdict.Chain` | codebase_rag/flow_verdict.py:110-114 | following parents back and reversing gives a real walk from the source whose length is the node's level |
| `FlowVerdict.FollowAll` | codebase_rag/flow_verdict.py:107-119 | following all edges out of a node settles it, or finds a shortest flow |
| `FlowVerdict.BfsPath` | codebase_rag/flow_verdict.py:97-120 | a shortest path of at least one edge, or none exactly when there is no such path; equal source and sink need a cycle |
| `FlowVerdict.CollectEdges` | codebase_rag/flow_verdict.py:76-80 | the edges are exactly those of the rows with two string ends |
| `FlowVerdict.FlowReachability` | codebase_rag/flow_verdict.py:65-94 | FOUND iff a flow exists, with a shortest one; NO_FLOW iff none exists and no gap; UNKNOWN otherwise, with the sorted gaps, each as often as its rows |
| `CrashCorrelation.WalksBest` | codebase_rag/crash_correlation.py:257-282 | when the queue is empty every call walk within the limit ends at a node whose recorded walk is no longer, and not later in order |
| `CrashCorrelation.FollowCaller` | codebase_rag/crash_correlation.py:276-281 | one caller, seen or new, keeps the order of the queue and the records |
| `CrashCorrelation.ExpandNode` | codebase_rag/crash_correlation.py:274-281 | the sorted callers of one node, all followed |
| `CrashCorrelation.ReverseReachable` | codebase_rag/crash_correlation.py:257-282 | exactly the nodes other than the failing one within the limit, each with its exact distance and a real forward call path of that length, the least of the shortest ones |
| `CrashCorrelation.OrderIrrelevant` | codebase_rag/crash_correlation.py:274-276 | two reports over the same calls are equal, whatever order the callers were listed in |
| `Dotted.SplitInjective` | codebase_rag/function_registry.py:104 | different names have different segments |
| `Dotted.PrefixSegments` | codebase_rag/function_registry.py:187-196 | a name is below a prefix in segments iff it equals it or starts with it and a dot |
| `Dotted.SuffixSegment` | codebase_rag/function_registry.py:270-273 | ending with a dot and a dot-free suffix means having that last segment, for names with a dot |
| `Dotted.LastSegmentIs` | codebase_rag/function_registry.py:99 | the last segment has no dot and is the whole name or what follows its last dot |
| `Tries.InsertLookup` | codebase_rag/function_registry.py:104-115 | insertion stores one entry and changes no other |
| `Tries.InsertNoDeadBranch` | codebase_rag/function_registry.py:104-115 | insertion leaves no branch that leads to no entry |
| `Tries.CleanupRemoves` | codebase_rag/function_registry.py:168-185 | deletion removes the entry at its path |
| `Tries.CleanupShrinks` | codebase_rag/function_registry.py:168-185 | deletion never adds or changes an entry |
| `Tries.CleanupNoDeadBranch` | codebase_rag/function_registry.py:168-185 | deletion leaves no dead branch |
| `Tries.SafeDeletion` | codebase_rag/function_registry.py:180-185 | deletion keeps every other entry when at each inner node of the path other entries can be noticed if there are any |
| `Tries.UnsafeDeletion` | codebase_rag/function_registry.py:184-185 | otherwise some other entry is lost |
| `Tries.NavigateLookup` | codebase_rag/function_registry.py:187-196 | looking up below the node of a prefix is looking up the concatenated path |
| `Tries.Collect` | codebase_rag/function_registry.py:198-219 | every entry below a node on a path without reserved-looking segments, none twice |
| `FunctionRegistry.IndexScanIff` | codebase_rag/function_registry.py:260-277 | the indexed answer equals the sorted scan, unless the suffix is dot-free and registered itself |
| `FunctionRegistry.AnswerMeaning` | codebase_rag/function_registry.py:256-279 | the answer to a suffix query is, in order and without repeats, the registered names that end with a dot and the suffix, and, with an index, the dot-free suffix itself if it is registered |
| `FunctionRegistry.DroppedIff` | codebase_rag/function_registry.py:242-254 | a change to a name drops from the cache exactly its last segment and the dotted suffixes it ends with |
| `FunctionRegistry.VariantNamed` | codebase_rag/function_registry.py:69-90 | a variant is the natural name, an at sign and the line in decimal, with an underscore and the column if a definition at another column came first on that line; the first to come claims it |
| `FunctionRegistry.CoherentAfter` | codebase_rag/function_registry.py:242-254 | dropping the stale suffixes keeps every cached answer equal to a fresh one after an insertion or deletion |
| `FunctionRegistry.NamesDistinguish` | codebase_rag/function_registry.py:69-90 | over any run of registrations two calls return the same variant iff natural name, line and column agree |
| `FunctionRegistry.NamesMarked` | codebase_rag/function_registry.py:83-86 | a variant always has the marker, so it is no natural name |
| `FunctionRegistry.DeleteCompleteIff` | codebase_rag/function_registry.py:165-185 | deletion keeps every other registered name in the trie if and only if it is safe, a condition on the registered names |
| `FunctionRegistry.PlainNamesSafe` | codebase_rag/function_registry.py:184 | without segments that start with the internal prefix every deletion is safe |
| `FunctionRegistry.HiddenSiblingLost` | codebase_rag/function_registry.py:184-185 | with such a sibling in an unregistered scope, deleting the other member is not safe |
| `FunctionRegistry.DunderLost` | codebase_rag/function_registry.py:184-185 | an example with a module's `__getattr__` |
| `FunctionRegistry.HistoryExact` | codebase_rag/function_registry.py:95-185 | after any history of insertions and safe deletions the trie holds exactly the registered names with their kinds, and no dead branch |
| `FunctionRegistry.PlainHistorySafe` | codebase_rag/function_registry.py:184 | every history whose names have no segment that starts with the internal prefix is one |
| `FunctionRegistry.Registry.constructor` | codebase_rag/function_registry.py:32-42 | an empty registry, all structures in step |
| `FunctionRegistry.Registry.Add` | codebase_rag/function_registry.py:95-115 | the dictionary gets the name, the trie its entry, and trie, index and cache stay in step with the dictionary |
| `FunctionRegistry.Registry.Remove` | codebase_rag/function_registry.py:131-166 | the dictionary loses the name, index, cache and properties stay in step, and the trie stays complete exactly when the deletion is safe |
| `FunctionRegistry.Registry.MarkProperty` | codebase_rag/function_registry.py:53-55 | the property names stay the last segments of the properties |
| `FunctionRegistry.Registry.ForgetProperty` | codebase_rag/function_registry.py:149-155 | a property name goes with the last property that has it |
| `FunctionRegistry.Registry.RegisterUniqueQn` | codebase_rag/function_registry.py:69-90 | the natural name when it is free, otherwise the variant spelled as described, with the line claimed if it was not |
| `FunctionRegistry.Registry.FindEndingWith` | codebase_rag/function_registry.py:256-279 | cached or not, the answer is the fresh one: the sorted names described there |
| `FunctionRegistry.Registry.FindWithPrefix` | codebase_rag/function_registry.py:281-283 | without repeats, exactly the entries a prefix filter accepts whose later segments do not start with the internal prefix; those of the dictionary while the trie is complete |
| `FunctionRegistry.Registry.FindWithPrefixAndSuffix` | codebase_rag/function_registry.py:230-240 | the same with the suffix filter |
| `IncrementalSync.FullBuildExact` | codebase_rag/graph_updater.py:2222-2231 | a full build ends in the snapshot's own graph and cache from any starting graph whose module paths were read |
| `IncrementalSync.UnprobedBuild` | codebase_rag/graph_updater.py:2280-2284 | when they could not be read, the snapshot's files come out right and everything else is left standing |
| `IncrementalSync.IncrementalExact` | codebase_rag/graph_updater.py:2201-2412 | an incremental run from a graph that mirrors its cache ends in the same state as a full build |
| `IncrementalSync.HistoryExact` | codebase_rag/graph_updater.py:2201-2412 | so does every sequence of incremental and full runs, compared with a full build of the last snapshot |
| `IncrementalSync.MirroredIff` | codebase_rag/graph_updater.py:2257-2289 | from a graph that holds the cached files and no other, in step, any run leaves such a graph iff every listed file it holds could be read, and, on a full build that could not ask for module paths, every file it holds is listed |
| `IncrementalSync.HistoryMirroredIff` | codebase_rag/graph_updater.py:2201-2412 | over a whole history the graph mirrors the cache throughout iff every run is such a run |
| `IncrementalSync.AfterMeaning` | codebase_rag/graph_updater.py:2242-2412 | the state after a run, file by file: which listed files keep their cached hash, which are read, which are parsed because they differ or bindings in them may have moved and beside what, which are left alone, and which unlisted ones go |
| `IncrementalSync.UnreadableReturns` | codebase_rag/graph_updater.py:2257-2261 | a file unreadable in one run and readable in the next ends up with both its old and its new entities |
| `IncrementalSync.UnreadableVanishes` | codebase_rag/graph_updater.py:2386-2388 | a file unreadable in one run and gone in the next stays in the graph |
| `IncrementalSync.GraphUpdater.Survey` | codebase_rag/graph_updater.py:2242-2322 | each eligible file is sorted into cached hashes, files to parse and unreadable files, and affected files join |
| `IncrementalSync.GraphUpdater.AddAffected` | codebase_rag/graph_updater.py:2306-2322 | an affected file that can be read joins once, as one that is not new |
| `IncrementalSync.GraphUpdater.Reingest` | codebase_rag/graph_updater.py:2346-2361 | files that are not new are deleted before they are ingested, and nothing else changes |
| `IncrementalSync.GraphUpdater.DeleteAll` | codebase_rag/graph_updater.py:2386-2394 | the entities of all vanished files go |
| `IncrementalSync.GraphUpdater.ProcessFiles` | codebase_rag/graph_updater.py:2201-2412 | the state after a run, for any listing order of the files, is the one described file by file |
| `Rehydration.CollectBases` | codebase_rag/graph_updater.py:1486-1496 | the well-typed rows of each class not parsed in this run, in row order |
| `Rehydration.CollectedIs` | codebase_rag/graph_updater.py:1486-1496 | a row counts iff it has a class not parsed in this run and a base, and the rows of a list count in turn; a class parsed in this run has none |
| `Rehydration.RehydratedBases` | codebase_rag/graph_updater.py:1474-1503 | a class is restored exactly when it was not parsed in this run, has such rows, and has one of them or an index on each |
| `Rehydration.RestoredOrder` | codebase_rag/graph_updater.py:1497-1503 | several bases come back by index, those with equal indices in row order, none lost or added |
| `Rehydration.IndexedComeBack` | codebase_rag/graph_updater.py:1477-1503 | bases with ascending indices, with any gaps, come back in that order from rows in any order |
| `Rehydration.StoredComesBack` | codebase_rag/graph_updater.py:1477-1503 | the bases of a class that could be resolved come back in source order |
| `Rehydration.SingleBaseComesBack` | codebase_rag/graph_updater.py:1485 | a single base comes back without an index |
| `Rehydration.OthersIrrelevant` | codebase_rag/graph_updater.py:1486-1496 | rows of other classes make no difference |
| `SqlNames.EncodedDotFree` | codebase_rag/sql_names.py:16-31 | an encoded segment has no dot, and is empty only if the segment is |
| `SqlNames.EncodingIs` | codebase_rag/sql_names.py:28-31 | the encoding goes character by character: a dot becomes one leader, the leaders are escaped, all else stays |
| `SqlNames.DecodeEncode` | codebase_rag/sql_names.py:20-31 | the encoding can be undone on any input |
| `SqlNames.NormalizeSqlReference` | codebase_rag/sql_names.py:34-78 | the scanning loop computes the normal form the laws below are about |
| `SqlNames.NormalizedReference` | codebase_rag/sql_names.py:34-78 | a reference written in segments normalizes to the dot-join of their keys: the content of a segment, encoded if any of it is quoted and folded if not; segments without content vanish, and a missing closing quote changes nothing |
| `SqlNames.EveryReference` | codebase_rag/sql_names.py:34-78 | every string is written in such segments |
| `SqlNames.NormalizedMeaning` | codebase_rag/sql_names.py:34-78 | so every string has such a normal form |
| `SqlNames.QuotedRoundTrip` | codebase_rag/sql_names.py:9-24 | the identifiers of a quoted reference can be read back from its normal form |
| `SqlNames.QuotedInjective` | codebase_rag/sql_names.py:16-24 | different lists of quoted identifiers never meet under one key |
| `SqlNames.BareMeansFoldedIff` | codebase_rag/sql_names.py:9-24 | unquoted text has the key of exactly the quoted name it folds to, iff it folds to text without dots and leader characters |
| `SqlNames.BareLeaderCollides` | codebase_rag/sql_names.py:51-54 | unquoted text that folds to an encoding meets a different quoted name |
| `Embedder.ParseEmbeddingRows` | codebase_rag/embedder.py:145-178 | accepted iff as many rows as snippets, with indices in range and none repeated after an embedding; otherwise the error is that of the first row that cannot be placed; the result lines up with the snippets iff no embedding is null |
| `Embedder.NullShifts` | codebase_rag/embedder.py:178 | an empty slot moves the next embedding to an earlier snippet |
| `Embedder.NullPoisonsCache` | codebase_rag/embedder.py:55-57 | an accepted response after which the cache pairs a snippet with another one's embedding |
| `Embedder.AcceptedIsMapped` | codebase_rag/embedder.py:160-178 | an accepted response without nulls is the model over the snippets, in whatever order its rows came |
| `Embedder.AnswersAligned` | codebase_rag/embedder.py:126-142 | the responses to a batch contribute one answer for each snippet iff none has a null, and fewer otherwise |
| `Embedder.AnswersAreMapped` | codebase_rag/embedder.py:126-142 | then, if the embeddings are the model's, they are the model over the snippets one by one |
| `Embedder.OpenaiEmbedBatch` | codebase_rag/embedder.py:122-142 | the batch succeeds iff every request is accepted, and then has what the responses contribute, one after the other; otherwise it fails with the error of the first one that is not |
| `Embedder.PutAllCoherent` | codebase_rag/embedder.py:55-57 | storing the model's answers keeps the cache coherent |
| `Embedder.PutAllPairs` | codebase_rag/embedder.py:55-57 | of several pairs for one snippet the last one stays, and nothing else in the cache changes |
| `Embedder.EmbeddingCache.GetMany` | codebase_rag/embedder.py:48-53 | exactly the snippets in the cache, at their positions |
| `Embedder.EmbeddingCache.PutMany` | codebase_rag/embedder.py:55-57 | snippets and embeddings are paired up to the shorter list and stored, the last pair for a snippet staying |
| `Embedder.Assemble` | codebase_rag/embedder.py:323-327 | cached answers at their positions, new ones at the positions that were missing |
| `Embedder.AssembledAnswers` | codebase_rag/embedder.py:305-327 | each snippet has its cached answer, or the new one at its place among the missing snippets |
| `Embedder.AssembledIsMapped` | codebase_rag/embedder.py:305-327 | together these are the model over all snippets |
| `Embedder.EmbedCodeBatch` | codebase_rag/embedder.py:296-329 | fails with the cache untouched iff a request is not accepted, with the error of the first such one; otherwise the answers for the missing snippets are stored in the order they came, the call ends in an index error iff one of them is null, and if none is, each snippet has its cached answer or the new one at its place; if they are the model's, the result is the model over the snippets whatever was cached and the cache stays coherent |
| `AstCache.RunInclusion` | codebase_rag/ast_cache.py:36-82 | after any operations keys are distinct, the count is within its limit, and the cache is the most recently used end of one that never evicts |
| `AstCache.UnboundedByLastUse` | codebase_rag/ast_cache.py:49-64 | the cache that never evicts is in the order of last uses |
| `AstCache.UnboundedHolds` | codebase_rag/ast_cache.py:49-64 | it holds exactly the keys whose last event is a use, with that use's value |
| `AstCache.EvictedLeastRecent` | codebase_rag/ast_cache.py:72-82 | whatever was evicted was last used before everything that is still there |
| `AstCache.FreshSurvivesIff` | codebase_rag/ast_cache.py:49-55 | a stored entry is there afterwards iff the limit is not zero and it is not both too large and the only one kept |
| `AstCache.EnforcedIs` | codebase_rag/ast_cache.py:72-91 | of the most recent n entries the count allows, all stay if their sizes add up to no more than the memory limit, and otherwise the oldest n / 10 go, or the oldest one if that is none |
| `AstCache.ApplyDoes` | codebase_rag/ast_cache.py:36-82 | each operation entry by entry: a hit moves its entry to the recent end, a store or a loading miss puts its entry there and then evicts as described, a deletion removes its entry, and a failed read changes nothing |
| `AstCache.LoadAnswers` | codebase_rag/ast_cache.py:36-47 | a load answers what the loader would, whatever was evicted, when stored values agree with the loader |
| `AstCache.LoadsExact` | codebase_rag/ast_cache.py:72-82 | with room in memory and stored values that agree with the loader, loads and stores leave exactly the most recently used entries the count allows |
| `AstCache.LargerLimitKeepsHits` | codebase_rag/ast_cache.py:72-74 | over loads, stores and deletions, with room in memory for the entries the limits allow, one loader and stored values that agree with it, a larger entry limit never turns a hit into a miss |
| `AstCache.BoundedASTCache.Load` | codebase_rag/ast_cache.py:36-47 | answer and new state are those of the operation the runs are made of, and what the description of a load says |
| `AstCache.BoundedASTCache.Set` | codebase_rag/ast_cache.py:49-55 | the same for a store, eviction included |
| `AstCache.BoundedASTCache.Get` | codebase_rag/ast_cache.py:57-60 | the same for a read, with None for the KeyError |
| `AstCache.BoundedASTCache.Delete` | codebase_rag/ast_cache.py:62-64 | the same for a deletion |
| `AstCache.BoundedASTCache.EnforceLimits` | codebase_rag/ast_cache.py:72-91 | eviction by count and then by size, as described entry by entry |
| `AstCache.BoundedASTCache.DropOldest` | codebase_rag/ast_cache.py:80-82 | the given number of least recently used entries go |

## Left out

Clone detection:

- `_entries_from_rows` and its helpers: reading rows into entries, with their defaults and filters.
- Exact groups (`_exact_groups`): one group per entry with two or more members; and the final sort of all groups by
  kind, number of members and node count.
- Thresholds and similarities are real numbers, not floating point; the epsilon of the prefix length is kept, so the
  required overlap is never larger than the code's.  Rounding of the reported similarity to three decimals is left out.
- The digits of registration markers are the ASCII digits.
- The members of an entry are compared as values, not by identity; the comment at `FullyPruned` says why the result is
  the same.
- `SimilarGroups.SimilarGroupList`: completeness says that a pair lies in a clique that is reported, not that one group
  shows both entries; the latter is false, see `SimilarGroups.SeenTogetherIff`.

Liveness:

- The root heuristics and the exclude patterns of `dead_code.py`: roots and candidates are given.
- `DeadCode.Walk`: sets the source changes in place are passed in and returned; popping order is left open.
- `DeadCode.DeadSymbols`: where a name is both a class defined in a function and a method, the order in which the source
  lists a set decides whether it is followed; there the result is only shown to be one of the least live sets.

File watcher:

- Which events are relevant, and the graph update itself under the update lock.
- Wall-clock time is taken to be monotone, and events to be dispatched one after the other, as the observer's single
  thread does.

Registry:

- `Tries.Collect`: the order of the result, which is insertion order in the source, is left open.
- The trie is a value that is reassigned, so sharing of nodes is not modelled; payloads are fields of their own, so a
  segment equal to one of the two reserved keys, which stops the source on an assertion, behaves like any other that
  starts with the prefix.
- The lists of variants (`variants`), abstract methods and callable parameters, which nothing above depends on.
- `FunctionRegistry.Registry.FindEndingWith`: the returned list is the cached one; a caller that changes it is not
  modelled.

Incremental indexing:

- Parsing and hashing are functions of the content; `IncrementalSync.HistoryExact` assumes that hashes do not collide,
  that files can be read, that module paths can be read, and that a file not modified since the cache was written is
  unchanged.
- Which files are eligible, which are affected by a change, single-file runs, the Lombok overlay and its stale keys,
  capture and restoring of edges from other files, directory times, File nodes, and sinks that cannot be queried.
- In `Rehydration`, the order in which the restored classes are listed.

SQL names:

- Folding of unquoted text (trimming and lower case) is a parameter.

Embedding:

- The hash and namespace of the cache key, loading and saving the cache, the HTTP client, and the local model; the cache
  is keyed by the snippet.
- `Embedder.OpenaiEmbedBatch`: a batch size of zero or less, which the source's range rejects or skips, is excluded.

Syntax-tree cache:

- A negative entry limit, and the fallback when the size of an entry cannot be measured.
- A bound on memory: one round of eviction may leave more than the limit.

Everything else in the repository is outside the model: parsers and name resolution, database text, crash ranking,
graph audits, the command line and the servers.
