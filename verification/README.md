# Verified model of the analysis core

A Dafny model of five parts of a static-analysis engine, and proofs about them.

1. **Import cycles** (`crates/core/src/graph.rs`, `crates/core/src/noncycle.rs`). Iterative Tarjan with its
   explicit work path, index and lowlink tables and component stack (`Tarjan.dfy` over `Digraph.dfy`); cycles
   filtered and ordered from the components (`Cycles.dfy`); cycles of a dependency graph less an exclusion set
   (`Circular.dfy`); the erased imports that make the exclusion set (`Noncycle.dfy`). Together: what a run
   reports as cycles is exactly the nontrivial strong components of the graph of imports that survive
   compilation. The iterative search is proved to refine depth-first search written as a recursion
   (`DepthFirst.dfy`, `TarjanOrder.dfy`), which gives the order of groups and members (`CycleOrder.dfy`) and that
   repeating a neighbour changes nothing, not even that order (`RepeatedEdges.dfy`).
2. **Tree-depth gate** (`crates/core/src/cst_depth.rs`). A cursor with three moves over a finite tree, and the
   walk that decides the height bound without recursion (`CstDepth.dfy`).
3. **On-disk cache** (`crates/cache/src`). Keys and their digest text (`CacheKeys.dfy`); the directory as a
   state machine over whole runs with crashes, failed removals and lost renames (`CacheMachine.dfy`); the
   handle and `open_with_cap`, each call a run of that machine (`AnalysisCache.dfy`); size-capped eviction
   (`Evict.dfy`, `EvictOrder.dfy`). The digest is any function at all.
4. **Scanners.** Comments and trailing commas (`Jsonc.dfy`, `TrailingCommas.dfy`), what a reader of JSON makes of
   the cleaned text (`JsonReading.dfy`, `JsonValues.dfy`), path normalization (`PosixPath.dfy`), civil-day
   arithmetic (`CivilDays.dfy`) and timestamps (`Timestamps.dfy`, `TimestampShapes.dfy`).
5. **Specificity and closure.** Attribute lookup (`Attributes.dfy`), the build-time fingerprint worklist
   (`SourceFingerprint.dfy`), what edits and renames do to it (`Edits.dfy`, `Renames.dfy`) and newline
   normalization (`Newlines.dfy`).

`JsoncRules.dfy`, `PathRules.dfy`, `AttributeRules.dfy` and `TimestampUnits.dfy` say rule by rule, on texts, numbers
and entries written out, what the specification functions of these scanners and lookups come to.

`Ordering.dfy` (total orders, sorting, string order), `Sequences.dfy` and `Options.dfy` are shared.

Code that works by loops and updates is a method proved equal to a specification function, or directly to a
property; the theorems are about the specification. Rust's truncating division is written out
(`CivilDays.TruncDiv`). A hash map's iteration order is an arbitrary choice, and the results are proved not to
depend on it.

## Where the code and its documentation part

- A write is a temporary file and a rename that reports success when the rename fails over an existing file
  (`crates/cache/src/store/atomic.rs:50-65`). For an entry, the put is then read back only if the file already
  held it (`CacheMachine.PutIsReadBackIff`); otherwise its key goes on reading as before. For the version marker,
  the old version is left standing under a handle of another;
  `CacheMachine.LostMarkerHarmfulIffVersionsDiffer` says when that can end in a stale hit: exactly when the two
  versions differ.
- Key fields are joined with NUL, which the code itself calls no injective encoding
  (`crates/cache/src/key.rs:43-46`). A key has a twin with the same text exactly when one of its fields holds a
  NUL; among keys with NULs in the scope only, as the engine's are, no two share a text. Reads rely on neither.
  Of its scopes the engine says that neither half can bleed into the other (`crates/engine/src/cache.rs:174-178`);
  one does exactly when a NUL stands in the tree id or the path (`CacheKeys.ScopeTwinIffNul`).
- `""` is called the identity of joining (`crates/core/src/posix_path.rs:14-15`). It is one exactly on paths
  already in normal form: `PosixPath.RootIsIdentity`.
- The date parser is said to return nothing for other shapes (`crates/core/src/clock.rs:32-36`). It also accepts
  signed fields, fields out of range, any time separators, and any tail it does not take for a zone.
  `TimestampShapes.AcceptedIff` says what it accepts, `TimestampShapes.SpellingIff` what is a spelling,
  `TimestampShapes.AcceptedReads` and `TimestampShapes.ZoneTail` what the rest reads as: an offset of hours alone,
  such as `+09`, counts as none, and a month past 14 does not roll over.
- Moving a crate is said to change its fingerprint (`crates/engine/build.rs:171-172`), and so is the renaming of a
  file (`crates/engine/build.rs:179-181`). Only the last component of a crate's path is hashed, and pieces are hashed
  without boundaries. `Renames.CrateRenamed` and `Renames.FileReplaced` say for every rename when the hashed text
  stays. One that keeps the order of the files always shows; `Renames.RenameUnseen` is one that does not.
- Cleaning is said to give valid JSON (`crates/core/src/jsonc.rs:27-28`). It does on every value written with
  comments and trailing commas (`JsonValues.CleanedReads`). On other texts removing comments can join what they kept
  apart, as in `1/**/2`: `Jsonc.JoinedIffVanishingBetween`, `JsonReading.CleanedReadingIff`.
- Normalizing newlines (`\r\r\n`) and blanking trailing commas (`[1,,]`) are not idempotent; the exact conditions are
  `Newlines.NormalizingTwice` and `TrailingCommas.BlankingTwice`.

## Model

| member | source | states |
|---|---|---|
| Tarjan.FindComponents | crates/core/src/graph.rs:109-158 | the imperative search, with its tables, stack and work path, terminates and returns the component list of the step machine |
| Tarjan.PopScc | crates/core/src/graph.rs:160-175 | the popping loop returns the stack down to the root, newest first, leaves what lay below, and clears exactly the popped nodes from the on-stack set |
| Tarjan.StepKeepsHead | crates/core/src/graph.rs:122-155 | every iteration of the inner loop keeps the whole invariant: every stacked node reaches a node of the work path, a lowlink is the index of a stacked node reachable from its node and never above its own index, edges already scanned are accounted for, finished groups are closed under edges |
| Tarjan.StepProgresses | crates/core/src/graph.rs:122-155 | every iteration meets a new node, or pops a frame, or advances one edge, and forgets nothing |
| Tarjan.RunEnds | crates/core/src/graph.rs:122-156 | from any state satisfying the invariant the inner loop ends, for every adjacency map: with an empty work path, the invariant still true, and every node known at the start numbered |
| Tarjan.FoldIsHarmless | crates/core/src/graph.rs:146-154 | when a component has just been popped, folding its root's lowlink into the parent changes no lowlink |
| Tarjan.SegmentIsClass | crates/core/src/graph.rs:146-148 | when lowlink equals index, the nodes above the root on the stack are exactly one class of mutual reachability |
| Tarjan.ComponentsAreClasses | crates/core/src/graph.rs:107-158 | for every node list and adjacency map: each group is a whole class of mutual reachability without repetition, no node is in two groups, the grouped nodes are exactly those reachable from the list, and edges lead only to the same or earlier groups |
| Tarjan.TraceSteps | crates/core/src/graph.rs:122-156 | a run of the inner loop is a finite list of states, each the step of the one before, idle only at its end |
| TarjanOrder.ComponentsAreExplored | crates/core/src/graph.rs:107-158 | the iterative search returns exactly the list that recursive depth-first search completes: the same groups, in the order in which the first-discovered member of each is left, each with its latest-discovered member first |
| TarjanOrder.FirstListedIsLast | crates/core/src/graph.rs:107-117 | nodes are visited in input order: a listed node that none listed before it reaches is the last member of its group |
| TarjanOrder.EarlierEdgesLater | crates/core/src/graph.rs:132-138 | edges are followed in input order: in the group of such a node, a member to which one of its first neighbours leads, not through the node, stands after each other member to which none of them leads |
| TarjanOrder.EarlierRootsFirst | crates/core/src/graph.rs:117-148 | everything the first listed nodes reach is grouped before everything else |
| DepthFirst.ExploreFinds | crates/core/src/graph.rs:117-145 | depth-first search discovers exactly what can be reached from its list without meeting what was discovered before |
| DepthFirst.EarlierBranchFirst | crates/core/src/graph.rs:132-138 | wherever a node is discovered, what its first neighbours lead to, avoiding what is known by then, is discovered before what they do not lead to |
| RepeatedEdges.RepeatIsHarmless | crates/core/src/graph.rs:135-144 | scanning a neighbour listed before changes nothing but the edge pointer |
| RepeatedEdges.RepeatsDoNotMatter | crates/core/src/graph.rs:109-158 | the component list, order included, is that of the adjacency map with repeated neighbours removed |
| Cycles.BuildAdjacency | crates/core/src/graph.rs:97-105 | each source is mapped to its targets in edge order, and nothing else is a key |
| Cycles.EdgesOfAdjacency | crates/core/src/graph.rs:97-105 | the adjacency map has exactly the listed edges |
| Cycles.FindCycles | crates/core/src/graph.rs:16-25 | the method returns the sorted list of the retained components |
| Cycles.CycleMeansClosedWalk | crates/core/src/graph.rs:19-22 | the size-or-self-loop filter keeps a component exactly when its members lie on a closed walk of length at least one |
| Cycles.CyclesAreExact | crates/core/src/graph.rs:13-25 | a node is reported exactly when it is reachable from the node list and lies on a closed walk; reported groups are whole classes, disjoint, in the declared order, and no other rearrangement is in that order |
| CycleOrder.LongestFirst | crates/core/src/graph.rs:14-23 | of two reported cycles the longer stands first, and of equally long ones the one whose first member comes first by characters |
| CycleOrder.FirstListedIsReportedLast | crates/core/src/graph.rs:16-25 | a listed node that none listed before it reaches stands last in its reported cycle |
| Circular.Gather | crates/core/src/graph.rs:48-91 | whatever order the map is iterated in, the collected nodes and the bag of collected edges are the same |
| Circular.CircularFromDepExcluding | crates/core/src/graph.rs:44-95 | the method returns the cycles of the kept edges over all mentioned nodes |
| Circular.CircularFromDep | crates/core/src/graph.rs:31-33 | the cycles with nothing excluded |
| Circular.SortedEdgesExact | crates/core/src/graph.rs:54-92 | the edges searched are exactly the dependency edges that are neither excluded nor self-imports |
| Circular.CircularIsRuntimeCycles | crates/core/src/graph.rs:35-95 | two nodes are reported together exactly when they are different and reach each other over kept edges; groups are whole classes of at least two nodes, disjoint and in the declared order |
| Circular.ExcludingMoreOnlySplits | crates/core/src/graph.rs:54-60 | with a larger exclusion set every reported group lies inside one group reported before |
| Circular.TargetOrderDoesNotMatter | crates/core/src/graph.rs:50-94 | dependency maps with the same target sets give the identical list, whatever the order and repetition of targets |
| CycleOrder.SmallestNameIsLast | crates/core/src/graph.rs:92-94 | files are visited by name: a file that no file with a smaller name reaches over kept edges stands last in its cycle |
| CycleOrder.SmallerTargetsLater | crates/core/src/graph.rs:92-94 | imports are followed by name: in the cycle of such a file, a member to which one of its targets leads stands after each other member to which neither that target nor one with a smaller name leads |
| Noncycle.NoncycleCandidates.Record | crates/core/src/noncycle.rs:108-113 | one call appends its binding to the list of its pair and touches no other pair |
| Noncycle.NoncycleCandidates.Refine | crates/core/src/noncycle.rs:123-164 | the loops return exactly the recorded pairs all of whose bindings are erasable |
| Noncycle.TabulateDeclarations | crates/core/src/noncycle.rs:132-147 | the table says, for each declared file and name, whether all its declarations are types and whether any is exported |
| Noncycle.RefineExcludesErased | crates/core/src/noncycle.rs:108-164 | a pair is excluded exactly when it was recorded and every binding recorded for it is erased on the import side or, with the gate on and in an erasing language, declared only as a type and exported |
| Noncycle.ErasableIff | crates/core/src/noncycle.rs:66-80 | a binding is erasable exactly when its import erases it or, with the gate on, the target ends in one of the six named endings, every symbol of that name in it is of kind type or interface, and one is exported |
| Noncycle.ValueBindingKeepsEdge | crates/core/src/noncycle.rs:135-157 | a pair with an unerased binding of a name that the target declares as a function, class or constant is never excluded |
| Noncycle.UndeclaredNameKeepsEdge | crates/core/src/noncycle.rs:32-37 | nor is a pair with an unerased binding of a name that no symbol of the target declares |
| Noncycle.OtherLanguagesKeepEdges | crates/core/src/noncycle.rs:68-80 | into a target with none of the six endings only the import side excludes |
| Noncycle.RefineIgnoresOrder | crates/core/src/noncycle.rs:128-163 | the exclusion set does not depend on the order or repetition of record calls or of symbols |
| Noncycle.GateOffIsImportSideOnly | crates/core/src/noncycle.rs:118-127 | with the gate off only the import side decides, and the gate only ever adds exclusions |
| Noncycle.FindRuntimeCycles | crates/core/src/noncycle.rs:108-164 | recording, refining and searching in sequence return the cycles with that exclusion set |
| Noncycle.ReportedCyclesAreRuntimeCycles | crates/core/src/noncycle.rs:115-164 | end to end: the reported groups are exactly the strong components of two or more nodes of the graph of dependency edges that are no self-import and were never recorded or have a binding that is not erasable |
| Noncycle.ValueCycleIsReported | crates/core/src/noncycle.rs:28-30 | two files that import values of each other are reported together, whatever else is recorded |
| CstDepth.ExceedsMaxDepth | crates/core/src/cst_depth.rs:132-151 | the iterative walk terminates, answers true exactly when the tree is higher than the cap, never lets its counter underflow, and on false leaves the cursor where it started |
| CstDepth.Cursor.GotoFirstChild | crates/core/src/cst_depth.rs:117-118 | moves to the first child, or reports that there is none and stays |
| CstDepth.Cursor.GotoNextSibling | crates/core/src/cst_depth.rs:119-120 | moves to the next sibling, or stays; never leaves the start node |
| CstDepth.Cursor.GotoParent | crates/core/src/cst_depth.rs:121-122 | moves to the parent, or stays at the start node |
| CstDepth.PathWithinHeight | crates/core/src/cst_depth.rs:125-131 | no position is deeper than the height |
| CstDepth.DeepestPath | crates/core/src/cst_depth.rs:125-131 | some position is as deep as the height |
| CstDepth.TooHighIffTooDeep | crates/core/src/cst_depth.rs:78-78 | a tree is over the cap exactly when some node lies more than 4096 edges below its root |
| CstDepth.DescendStep | crates/core/src/cst_depth.rs:135-140 | entering a first child uses up one node of the walk and keeps what is known of the nodes already entered |
| CstDepth.SiblingStep | crates/core/src/cst_depth.rs:142-144 | moving to a sibling after a finished subtree keeps the record of the depth bound |
| CstDepth.ParentStep | crates/core/src/cst_depth.rs:145-148 | going up from a last child finishes the parent's subtree |
| CacheKeys.DigestInputInjective | crates/cache/src/key.rs:39-50 | keys whose fields other than the scope hold no NUL are told apart by their digest text, whatever their scopes hold, and so are their IR projections; the keys the engine builds are of this kind |
| CacheKeys.ScopesCollideIff | crates/engine/src/cache.rs:174-181 | two different tree-and-path pairs have one scope text exactly when one's tree id is the other's followed by a NUL and the head of its path, and its own path is what follows the next NUL |
| CacheKeys.ScopeTwinIffNul | crates/engine/src/cache.rs:174-181 | another pair has the same scope text exactly when a NUL stands in the tree id or in the path |
| CacheKeys.SeparatorIsAmbiguous | crates/cache/src/key.rs:47-49 | a field can be cut at any NUL in it and its rest pushed into the next field without changing the joined text |
| CacheKeys.TwinIffNul | crates/cache/src/key.rs:43-49 | a key shares its digest text with another key exactly when one of its five fields holds a NUL |
| CacheKeys.IrTwinIffNul | crates/cache/src/key.rs:43-49 | the same for the four fields of an IR key |
| CacheKeys.DigestTexts | crates/cache/src/key.rs:39-50 | the digested texts written out: the fields in declaration order with a NUL between each two |
| CacheKeys.ProjectionDropsOnlyRuleset | crates/cache/src/key.rs:105-124 | two keys have one IR projection exactly when they differ at most in the ruleset fingerprint |
| CacheMachine.RunAgrees | crates/cache/src/store.rs:123-165 | after every run from an empty directory, a file exists exactly when some key holds it, and then stores that key's latest put since the last wipe |
| CacheMachine.ReadIrExact | crates/cache/src/store/entries.rs:34-46 | after every run and for any digest function, an IR read returns the latest put of exactly its key if that key holds its file, and misses otherwise |
| CacheMachine.ReadFindingsExact | crates/cache/src/store/entries.rs:67-78 | the same for findings reads |
| CacheMachine.RulesetChange | crates/cache/src/key.rs:84-103 | changing the ruleset leaves every IR read as it was, and a findings hit then stems from a put under that very ruleset |
| CacheMachine.PutThenRead | crates/cache/src/store/entries.rs:51-91 | a put is read back; another key's reads change only if its file coincides, and then they miss |
| CacheMachine.MarkerNamesEveryWriter | crates/cache/src/store.rs:123-165 | over any sequence of opens under any versions with crashes anywhere inside, while marker writes hold, every entry was last written by a handle of the version the marker names |
| CacheMachine.HitsAreOfOwnVersion | crates/cache/src/store.rs:123-165 | so every hit of a live handle was written by a handle of its own version |
| CacheMachine.LostMarkerLeavesOldVersion | crates/cache/src/store/atomic.rs:50-65 | any marked directory can be opened under another version and keep the old marker |
| CacheMachine.PutSurvivesReopening | crates/cache/src/store.rs:146-153 | a put through a live handle is served to the handle of a reopening under the version the marker names, whichever that is |
| CacheMachine.LostMarkerHarmfulIffVersionsDiffer | crates/cache/src/store/atomic.rs:50-65 | after a lost marker write some later run ends in a stale hit, of IR or of findings, exactly when the marker left standing names another version than the one being opened |
| CacheMachine.PutIsReadBackIff | crates/cache/src/store/atomic.rs:50-65 | a put reported successful is read back exactly when its rename landed or its file already held that very entry; a lost put leaves every read as it was |
| CacheMachine.LostPutReadsTheOneBefore | crates/cache/src/store/atomic.rs:50-65 | over whole runs, after a lost put the new payload is missed exactly when the key does not hold its file or was last put with another payload |
| AnalysisCache.Handle.GetIr | crates/cache/src/store/entries.rs:34-46 | the read of the machine; the rejected counter grows by one exactly when the key matches and the payload does not |
| AnalysisCache.Handle.GetFindings | crates/cache/src/store/entries.rs:67-78 | the same for findings |
| AnalysisCache.Handle.StoreIr | crates/cache/src/store/entries.rs:51-62 | a write that lands is the machine's put, one that does not changes nothing; success is also reported for a failed rename over an existing file, and after a reported success the payload is read back exactly when the rename landed or the file already held that very entry |
| AnalysisCache.Handle.StoreFindings | crates/cache/src/store/entries.rs:81-91 | the same for findings |
| AnalysisCache.Handle.PayloadVerifies | crates/cache/src/store/integrity.rs:85-91 | true exactly when the recomputed digest is the stored one, counting each refusal |
| AnalysisCache.OwnWritesAreNeverRefused | crates/cache/src/store/integrity.rs:85-91 | after any run of the cache itself no read is refused by the integrity check |
| AnalysisCache.EditedEntryIsRefusedIff | crates/cache/src/store/integrity.rs:74-92 | an entry whose payload was replaced while its recorded digest stayed is a counted miss exactly when the digest tells key and old payload from key and new payload |
| AnalysisCache.WipeEntries | crates/cache/src/store.rs:260-269 | for every combination of failing removals, the exact directory left: a failure in the first half leaves its survivors and does not touch the second; the run that led there removes and never puts |
| AnalysisCache.WriteMarkerFile | crates/cache/src/store/atomic.rs:44-66 | the marker changes exactly when temp write and rename succeed, and nothing else changes; the lost-marker event happens exactly on a reported success without the rename |
| AnalysisCache.SettleVersion | crates/cache/src/store.rs:148-153 | the exact directory left by every combination of faults; a readable matching marker leaves it alone; the marker is lost exactly when the wipe succeeds and the rename over an older marker fails |
| AnalysisCache.SettlingByFault | crates/cache/src/store.rs:150-153 | the faults one by one: what a failed removal spared is left, with all findings if it was the first; a failed marker write leaves the old marker over no entry, unnoticed exactly if the rename over an old marker failed |
| AnalysisCache.OpenWithCap | crates/cache/src/store.rs:146-165 | under the version of a readable marker it succeeds whatever else fails, keeps the marker and exactly the entries whose files eviction leaves, so everything within the budget; under any other version nothing stays once the entries are removed and the marker is written, and a failed removal fails the open with the old marker; in every case the exact directory left; the run puts nothing, opens only this version, and loses the marker exactly when settling does |
| AnalysisCache.OpenKeepsMarkers | crates/cache/src/store.rs:146-165 | after a history in which markers held, an open by one version keeps that, unless its marker write was lost over another version |
| AnalysisCache.OpenAndRead | crates/cache/src/store.rs:146-165 | composed: reopened under the version its marker names, a cache within its budget serves exactly what it served before; and after any history in which markers held, unless the open lost its marker over another version, a hit of either kind is what a handle of the same version put last for that key before the open |
| Evict.Gather | crates/cache/src/evict.rs:92-108 | the listing, in any order, yields the bag of regular files and their saturated size sum |
| Evict.EvictToCap | crates/cache/src/evict.rs:88-130 | the loops leave the directory and the count of the specified pass |
| Evict.PassRemovesPrefix | crates/cache/src/evict.rs:119-129 | a pass removes exactly the unlocked files of the prefix it tries, and counts them |
| Evict.PassKeepsTotal | crates/cache/src/evict.rs:119-129 | the running total stays the byte size of the survivors |
| Evict.AttemptsAreShortest | crates/cache/src/evict.rs:120-123 | every shorter prefix leaves more than the target |
| Evict.EvictionIsShortestPrefix | crates/cache/src/evict.rs:88-130 | without saturation: at or under the cap nothing goes; over it, the shortest prefix of the (written, length, path) order reaching three quarters of the cap, or everything, is tried, and exactly its unlocked files go |
| EvictOrder.NothingOlderIsLeft | crates/cache/src/evict.rs:100-117 | each deleted file comes before each file left that no one holds: written earlier, or at the same time and shorter, or with the smaller path; an unknown time counts as the epoch |
| EvictOrder.ThreeQuartersAreLeft | crates/cache/src/evict.rs:110-123 | over the cap, at most three quarters of it are left, or nothing that could be deleted is |
| EvictOrder.NoMoreThanNeeded | crates/cache/src/evict.rs:119-129 | without one of the deletions more than three quarters of the cap, rounded down, would be left |
| Evict.SecondPassIsIdle | crates/cache/src/evict.rs:110-114 | without saturation a second pass under the same cap and locks deletes nothing, whether the first reached its target or was stopped by locked files |
| CivilDays.DaysFromCivilIsDayNumber | crates/core/src/clock.rs:111-121 | for every integer year, negative included, and every valid month and day, the formula is the day's number on the calendar counted year by year and month by month |
| CivilDays.DaysFromCivilCountsDays | crates/core/src/clock.rs:111-121 | it is 0 on 1970-01-01 and grows by one from each date to the next |
| CivilDays.DayNumbersAreStrictlyOrdered | crates/core/src/clock.rs:111-121 | one date is before another exactly when its number is smaller, and equal numbers are equal dates |
| TimestampUnits.MonthLengths | crates/core/src/clock.rs:111-121 | the calendar written out: the lengths of the months and the leap-year rule |
| Timestamps.ParseIsoToMs | crates/core/src/clock.rs:37-109 | the index-based parser returns what the parts of the string, read separately, denote, and fails exactly when one of them does |
| Timestamps.ParsePrinted | crates/core/src/clock.rs:30-109 | parsing a printed timestamp, with any fraction length and any zone spelling, yields local time minus offset with the fraction rounded down to milliseconds |
| Timestamps.SpellingsOfOneInstant | crates/core/src/clock.rs:103-108 | two printed timestamps parse equal exactly when they denote one instant |
| TimestampUnits.PrintedInMilliseconds | crates/core/src/clock.rs:98-108 | what a printed timestamp with an offset parses to, in numbers of milliseconds |
| TimestampUnits.HourEastReadsAlike | crates/core/src/clock.rs:94-108 | an hour later on the clock with an hour more of offset to the east reads alike, across midnight, month and year |
| TimestampUnits.EastIsEarlier | crates/core/src/clock.rs:80-99 | nine in the morning at `+09:00` is midnight |
| TimestampUnits.AfterLeapDay | crates/core/src/clock.rs:98-121 | the milliseconds of one moment in March 2000 |
| Timestamps.PaddedIsMillis | crates/core/src/clock.rs:71-78 | truncating or zero-padding a fraction to three digits is rounding it down to milliseconds, for every length |
| Timestamps.OtherTailsAreIgnored | crates/core/src/clock.rs:54-59 | a date followed by anything that does not begin with T reads as that date's midnight |
| TimestampShapes.AcceptedIff | crates/core/src/clock.rs:37-99 | the parser accepts exactly the strings with dashes at 4 and 7, a digit or sign and then digits in every field, no less than nine bytes from a T on, and a digit or sign and then digits in a zone that is read |
| TimestampShapes.SpellingIff | crates/core/src/clock.rs:30-36 | a string spells some timestamp exactly when its separators, the ranges of its fields and its end pass tests on its bytes |
| TimestampShapes.AnswersExactlySpellingsIff | crates/core/src/clock.rs:30-36 | on a spelling the answer is the instant it denotes; there is an answer exactly for the spellings, except on the accepted strings that are none |
| TimestampShapes.AcceptedReads | crates/core/src/clock.rs:46-108 | every accepted string, in range or not, reads as a number of days after the first of one month, plus its clock |
| TimestampShapes.SeparatorsAreNotRead | crates/core/src/clock.rs:56-63 | changing the two bytes between hours, minutes and seconds never changes the answer |
| TimestampShapes.ZoneTail | crates/core/src/clock.rs:80-101 | after a spelling without zone, a signed tail is applied exactly when at least four bytes follow the sign, of which only the four digits are read; any other tail counts as no offset |
| TimestampShapes.HoursAloneAreDropped | crates/core/src/clock.rs:84-98 | a sign and two digits read as no offset, so as the instant they denote exactly when they are zero |
| TimestampShapes.AnyMonthReads | crates/core/src/clock.rs:113-121 | for every month field two bytes can hold and every day, the answer is that many days after the first of one month, given by the field |
| TimestampShapes.RollsOverIff | crates/core/src/clock.rs:113-121 | out-of-range months roll over into the neighbouring years exactly up to month 14 |
| Jsonc.StripComments | crates/core/src/jsonc.rs:36-98 | the scanning loops return the suffix-recursive stripping of the input |
| JsoncRules.LineCommentGoes | crates/core/src/jsonc.rs:68-77 | a line comment vanishes up to, not including, the next line feed or carriage return or the end |
| JsoncRules.BlockCommentGoes | crates/core/src/jsonc.rs:79-91 | a block comment vanishes up to the first closing mark after its opening, but for its newlines |
| JsoncRules.OpenBlockCommentGoes | crates/core/src/jsonc.rs:79-91 | without a closing mark it runs to the end of the text |
| JsoncRules.NewlinesAreKept | crates/core/src/jsonc.rs:82-85 | each newline of a block comment is kept as one newline, and nothing else of it |
| JsoncRules.StringStays | crates/core/src/jsonc.rs:47-66 | a string with any escapes is copied, and what follows is read outside strings again |
| JsoncRules.CharacterStays | crates/core/src/jsonc.rs:93-94 | any other character is copied |
| Jsonc.StripKeepsSegments | crates/core/src/jsonc.rs:31-35 | stripping keeps exactly the segments of the text that are not comments, and of block comments their newlines |
| Jsonc.ScanIsFaithful | crates/core/src/jsonc.rs:31-35 | reading a text as strings, comments and characters loses nothing |
| Jsonc.ScanOfStripped | crates/core/src/jsonc.rs:36-98 | the stripped text reads as exactly the segments kept: nothing is joined into a comment or string and nothing is split |
| Jsonc.StrippedTextIs | crates/core/src/jsonc.rs:18-35 | for every input: no comment is left, the string literals, unterminated ones included, and the newlines are those of the input, a text is unchanged exactly when it has no comment, and a second pass changes nothing |
| Jsonc.JoinedIffVanishingBetween | crates/core/src/jsonc.rs:68-91 | two characters or strings that stay come to stand side by side exactly when all that stands between them is comments without a newline |
| Jsonc.CommentsCanSeparate | crates/core/src/jsonc.rs:79-91 | the instance `1/**/2`, which becomes `12` |
| TrailingCommas.StripTrailingCommas | crates/core/src/jsonc.rs:104-146 | overwriting the array left to right gives the specification over the original: the same length, with a space for exactly the commas outside strings whose next character, white space apart, is a closing brace or bracket |
| JsoncRules.CommaGoesIff | crates/core/src/jsonc.rs:132-140 | a comma becomes a space exactly when the first character after it that is not white space closes an object or array |
| JsoncRules.LastCommaStays | crates/core/src/jsonc.rs:132-140 | a comma with only white space after it stays |
| JsoncRules.OtherCharacterStays | crates/core/src/jsonc.rs:104-146 | every other character outside strings stays |
| JsoncRules.StringIsNotBlanked | crates/core/src/jsonc.rs:112-130 | a string stays, its commas included |
| TrailingCommas.StripJsonComments | crates/core/src/jsonc.rs:27-29 | the two passes in sequence |
| TrailingCommas.TrailingAfter | crates/core/src/jsonc.rs:132-140 | a comma trails after a pass exactly when it stood directly before a trailing comma |
| TrailingCommas.BlankingTwice | crates/core/src/jsonc.rs:104-146 | the pass is idempotent on a text exactly when no trailing comma directly follows another comma |
| TrailingCommas.DoubledCommaExample | crates/core/src/jsonc.rs:132-140 | of two commas before a bracket one falls in each pass |
| TrailingCommas.CleanTextIs | crates/core/src/jsonc.rs:25-29 | both passes together leave no comment, exactly the input's strings and newlines, and are idempotent exactly when the stripped text doubles no trailing comma |
| JsonReading.StrippedReadsAlikeIff | crates/core/src/jsonc.rs:31-35 | removing comments leaves the strings, punctuation and words of a text as they were exactly when no two word characters have nothing but comments without a newline between them |
| JsonReading.BlankedReading | crates/core/src/jsonc.rs:132-140 | blanking takes out of what is read exactly the commas followed by a closing brace or bracket, and joins no words |
| JsonReading.CleanedReadingIff | crates/core/src/jsonc.rs:25-29 | for every text: after both passes it reads as before less the trailing commas, exactly when no two word characters have nothing but comments without a newline between them |
| JsonValues.ReadsOneValue | crates/core/src/jsonc.rs:27-28 | a text is at most one value, trailing commas included |
| JsonValues.CleanedReads | crates/core/src/jsonc.rs:27-29 | a value written with comments, white space and at most one trailing comma in each list, however deep, is cleaned to a text without comments that is the same value without trailing commas |
| JsonValues.CleanedReadsIff | crates/core/src/jsonc.rs:27-29 | and where comments keep no words apart, a text is cleaned to a value only if it was that value, written with such commas |
| PosixPath.NormalizeJoined | crates/core/src/posix_path.rs:51-72 | the stack loop returns the fold of the segments |
| PathRules.DotVanishes | crates/core/src/posix_path.rs:60-60 | `.` and empty segments vanish at either end of a path |
| PathRules.NameIsAppended | crates/core/src/posix_path.rs:68-68 | a name is appended to the normalized path |
| PathRules.ClimbTakesName | crates/core/src/posix_path.rs:61-64 | `..` takes back a name right before it |
| PathRules.ClimbIsKept | crates/core/src/posix_path.rs:61-67 | at the root, or after a kept `..`, another `..` is kept |
| PathRules.SmallPaths | crates/core/src/posix_path.rs:51-72 | two instances |
| PosixPath.ClimbIsLargestExcess | crates/core/src/posix_path.rs:57-69 | the climb of a path is the largest amount by which `..` outnumbers names over a prefix |
| PosixPath.NormalForm | crates/core/src/posix_path.rs:56-71 | the result is that many `..` segments and then exactly the names no later `..` cancels, in order |
| PosixPath.JoinIsAssociative | crates/core/src/posix_path.rs:51-72 | joining in two steps is joining in one, for all three paths |
| PosixPath.NormalizeTwice | crates/core/src/posix_path.rs:51-72 | normalizing a result again changes nothing |
| PosixPath.RootIsIdentity | crates/core/src/posix_path.rs:14-15 | joining a path to the root returns it exactly when it is empty or in normal form |
| PosixPath.AbsoluteIsRelative | crates/core/src/posix_path.rs:47-50 | a leading slash on the candidate changes nothing |
| PosixPath.ClimbsAreKept | crates/core/src/posix_path.rs:48-50 | a result begins with `..` exactly when the path climbs above the root somewhere |
| PosixPath.AncestorDirs | crates/core/src/posix_path.rs:34-43 | the list holds exactly the directories above the path, strictly deepest first, and the root last |
| PosixPath.DirnameJoins | crates/core/src/posix_path.rs:18-26 | a file's directory joined with its own name is the normalized path |
| Attributes.PathAttr | crates/core/src/attributes.rs:163-183 | the loop returns the value of the first exact file entry, else of the earliest among the longest covering scopes, else nothing |
| Attributes.OneValue | crates/core/src/attributes.rs:163-210 | that specification of file and route lookups has one value |
| Attributes.RouteAttr | crates/core/src/attributes.rs:189-210 | the same for routes, whose scopes cover only http |
| AttributeRules.FirstNamedAnswers | crates/core/src/attributes.rs:163-210 | the first entry for the key that names the file or route answers |
| AttributeRules.LongestScopeAnswers | crates/core/src/attributes.rs:163-210 | if none does, the earliest of those with the longest scope over the file, or over the path after the method of an http route, answers |
| AttributeRules.NothingAnswers | crates/core/src/attributes.rs:163-210 | and without such a scope there is no answer |
| AttributeRules.SlashChangesNothing | crates/core/src/attributes.rs:213-221 | a slash added to the end of a scope changes no lookup |
| AttributeRules.ScopeCoversBelow | crates/core/src/attributes.rs:213-221 | a scope that does not end in a slash covers itself and what follows it after a slash, and nothing else |
| AttributeRules.RoutesAreCoveredByPath | crates/core/src/attributes.rs:189-200 | a route is covered by what covers the text after its first space, or the whole key if it has none, and only if its kind is http |
| AttributeRules.AdminScope | crates/core/src/attributes.rs:211-213 | `/admin` covers `GET /admin/users` and not `/administrators` |
| Attributes.TiesAreOneScope | crates/core/src/attributes.rs:213-221 | covering scopes of equal trimmed length are one prefix |
| Attributes.UnderIsSegmentPrefix | crates/core/src/attributes.rs:213-221 | a scope covers a path exactly when its segments are a prefix of the path's |
| Attributes.AppendingFillsGaps | crates/core/src/attributes.rs:96-107 | appended entries change an answer exactly when one of them is strictly more specific; where nothing answered, there is an answer exactly when one of them applies; a new answer is an appended entry |
| Attributes.EarlierSymbolWins | crates/core/src/attributes.rs:109-132 | for symbols the earlier part of a store decides whenever it says anything |
| AttributeRules.FirstSymbolAnswers | crates/core/src/attributes.rs:109-132 | the first entry for the key that names the symbol answers, unless both it and the question name a file and the files differ |
| Attributes.FromParts | crates/core/src/attributes.rs:73-90 | overlay entries win ties: a native entry answers exactly when one applies that is strictly more specific than every overlay entry that applies |
| Attributes.Extended | crates/core/src/attributes.rs:94-107 | entries already there win ties: an added one answers exactly when one applies that is strictly more specific than every earlier one that applies |
| Newlines.NormalizeNewlines | crates/engine/build.rs:268-281 | the loop drops exactly the returns directly before a line feed |
| Newlines.PairBecomesLineFeed | crates/engine/build.rs:268-281 | a pair becomes a line feed, and what stands before and after it is normalized as if alone |
| Newlines.NormalizingTwice | crates/engine/build.rs:268-281 | normalizing is idempotent on a text exactly when no line feed has two returns before it |
| Newlines.CrlfRoundTrip | crates/engine/build.rs:191-193 | a text written with paired line endings is normalized back to itself, whatever it holds |
| Newlines.CheckoutsAgree | crates/engine/build.rs:191-193 | the two checkouts of a text contribute the same bytes exactly when it holds no pair itself |
| SourceFingerprint.FnvBytes | crates/engine/build.rs:290-296 | the loop is the byte-by-byte fold, wrapping at 64 bits |
| SourceFingerprint.FnvConcat | crates/engine/build.rs:290-300 | hashing pieces in sequence hashes their concatenation |
| Edits.ChangedByteShows | crates/engine/build.rs:290-296 | a changed byte anywhere in a text always changes its hash |
| Edits.PublishedValues | crates/engine/build.rs:283-296 | the hash has its published values on the empty text and on `a` |
| SourceFingerprint.DirFingerprint | crates/engine/build.rs:182-199 | one hash of all relative paths and normalized contents in path order, with a fixed marker for unreadable files |
| Edits.FileEditedShows | crates/engine/build.rs:182-199 | two crates that differ in the contents of one readable file have the same hashed text exactly when the contents differ at most in line endings |
| Edits.ManifestEditedShows | crates/engine/build.rs:162-165 | so do two that differ in a readable manifest |
| Edits.OneByteEditShows | crates/engine/build.rs:162-199 | changing one byte of one file, no part of a line ending, always changes the hash of the crate |
| Edits.OneFileText | crates/engine/build.rs:182-199 | the text of a crate with one file: its path, its contents and its normalized manifest, or a marker for what cannot be read |
| SourceFingerprint.ListingOrderDoesNotMatter | crates/engine/build.rs:179-185 | the order in which directories list their files does not matter |
| SourceFingerprint.CollectCrates | crates/engine/build.rs:149-168 | the worklist ends on every dependency relation, cyclic ones included, and collects exactly the crates reachable by path dependencies, each with the hash of its contents |
| Edits.DeclaredPathsAreEdges | crates/engine/build.rs:225-262 | a crate depends exactly on the directories its declared paths lead to, absolute ones as they are and others from the crate |
| SourceFingerprint.ClosureFingerprint | crates/engine/build.rs:145-177 | the loops return the hash over the set of reachable crates in path order, whatever order they were visited in |
| Edits.LoneCrateText | crates/engine/build.rs:169-176 | of one crate the last component of its path and the sixteen digits of its hash are hashed |
| Edits.LastComponentIs | crates/engine/build.rs:173-173 | the last component is what stands after the last slash |
| Edits.DigitsInOrder | crates/engine/build.rs:174-174 | the digits are the usual ones, most significant first |
| SourceFingerprint.OnlyTheClosureMatters | crates/engine/build.rs:145-177 | a crate is in one file system's closure exactly when it is in the other's, if the two agree on the first one's closure |
| SourceFingerprint.FingerprintOfClosure | crates/engine/build.rs:169-176 | and the two file systems then give it one fingerprint, so nothing outside the closure matters |
| SourceFingerprint.MovingIsInvisible | crates/engine/build.rs:169-176 | crates moved so that last path components, order and contents stay keep the hashed text and so the fingerprint |
| SourceFingerprint.OneCrateMoved | crates/engine/build.rs:171-173 | a crate alone keeps its hashed text in a move exactly when the last component of its path and its hash stay, and then keeps its fingerprint |
| SourceFingerprint.ContributionTells | crates/engine/build.rs:171-174 | what a crate adds to the hashed text tells the last component of its path and its hash, and nothing else of its path |
| SourceFingerprint.HexIsInjective | crates/engine/build.rs:174-174 | sixteen hexadecimal digits tell hashes apart |
| SourceFingerprint.MovedInPlace | crates/engine/build.rs:169-176 | a move that keeps the order of the paths changes the hashed text exactly when it changes the last component or the hash |
| SourceFingerprint.MovedPast | crates/engine/build.rs:169-176 | a move past other crates, whatever it does to last component and hash, keeps the hashed text exactly when their part followed by the old part is the new part followed by theirs; never, when the old hash is not that of the last of them |
| SourceFingerprint.MovesShowInText | crates/engine/build.rs:169-176 | any number of moves that keep the order and the lengths of the last components: the text stays exactly when every last component and hash does |
| Renames.CrateRenamed | crates/engine/build.rs:169-176 | renaming one crate's directory among any set of others: the hashed text stays exactly when what the crates between its old and new place add reads the same with its old part at the one end as with its new part at the other |
| Renames.CrateRenamedInPlace | crates/engine/build.rs:169-176 | such a rename that keeps the place in path order changes the hashed text exactly when it changes the last component or the hash |
| Renames.FileReplaced | crates/engine/build.rs:179-199 | the same for one source file among the files of a crate, whatever order the directories are listed in: path and content are hashed without a boundary, and the text stays exactly when the files between the two places read the same with the old piece at the one end as with the new piece at the other |
| Renames.FileRenamedInPlace | crates/engine/build.rs:179-181 | a pure rename of a file that keeps its place in path order always changes the hashed text |
| Renames.RenameUnseen | crates/engine/build.rs:179-181 | a pure rename that changes the order and leaves the hashed text as it was |

## Left out

- The cross-layer linker, call-graph search, rule interpreter, finding merge, configuration and workspace globbing.
- All parsers, regular expressions and Unicode tables; white space is a predicate false on quote, comma, brace and bracket and true on space.
- The grammar of JSON words and string escapes: a word is any run of characters that make no other token, and white space is the scanner's own, wider than a JSON reader's.
- Serialization: a payload is its canonical text, and an entry that does not deserialize is not distinguished from an absent one.
- Real file-system behaviour beyond removals and renames that may fail; temporary files left by interrupted writes; locking and permissions.
- Several live handles at once, a handle of an older version that still writes after a newer open, and entries edited by hand.
- Eviction when the size sum exceeds 64 bits: the saturated total is modelled, its lemmas assume it is exact.
- Path order in eviction is the order of strings; the library's component-wise order of paths is not part of this model.
- Integer width in the counters and in the timestamp arithmetic, which stays far inside 64 bits on every parsable field.
- Strings are sequences of bytes or characters as the code treats them; invalid slices of multi-byte characters fail in both.
- The line-based reading of a manifest's path dependencies: a crate's declared paths are part of its contents, and canonical paths are taken to hold no backslash.
- Symbolic links retargeted during a walk: a path below a directory resolves alike however the directory is spelled (`SourceFingerprint.Sane`).
- Quality of the hash functions; clocks; messages and warning texts; the fields of attributes other than target, key and value.
- A particular syntax-tree library: a cursor's root is the node it was made at, which its moves never leave, and the depth walk starts there.
