# Models of AntTracks tree reduction, PPC64 code emission and core-file reading

This project models three parts of the repository and proves what they are for. `dafny verify dfyconfig.toml`
checks all of it.

**Classification trees (WebTreeViz).** A heap snapshot is a tree of classes of objects with two metrics. For display,
`reduceTree` keeps the largest children of every node (nine at most, or as many as pass 90%), folds the rest into an
"Other" subtree and reduces that in turn; `reduceTreeBasedOnSelectedNodeSetRecursively` replays the selection on the
other snapshots; `VisualizationManager` does both again, on clones, whenever an option changes.

- `Trees`, `Merge`, `Reduce`: trees as values, merging, both reductions. `Conservation`, `Folding`, `Selection`,
  `Replay`, `PathInvariant`, `Ranking`, `Ordering`, `MergedValues`, `ReductionTheorems`: what the reductions keep, fold
  together, bound, prefer, order and agree on.
- `TreeHeap`, `MissingDataHeap`, `Lookup`, `Growth`, `Sizes`, `Manager`: the code as it is, on mutable node objects
  with aliasing ruled out by footprints, proved against those values.
- `MissingData`, `Session`, `IdStrings`: completing loaded trees, the manager as a state machine, id strings.

**PPC64 assembler.** `PpcIsa` and `PpcMachine` give the emitted instructions an encoding and a meaning over 64-bit
registers and byte memory (sections 3.3.2, 3.3.3, 3.3.8, 3.3.11 and 3.3.12 of PowerPC Book I). `PpcAssembler`,
`PpcPatching` and `PpcMemory` are the emitters, proved to mean what was asked for; `PpcStorage` says how loads and
stores meet; `PpcBranches` emits and patches branches. `PpcFields` and `PpcWords` tie the encoded numbers to the bit
fields that the code joins.

**Serviceability agent (linux).** `CoreMaps`, `CoreRead`, `CoreGrab`, `CoreOpen`, `CoreNotes` and `CoreSymbols` are the
core-file reader: map list and sorted index, byte reader, opening sequence, when an opened file can be read, notes
(Note Section, chapter 5 of the System V gABI) and symbols. `ProcRead` reads a live process word by word,
`DebugLinkCrc` is the debug-link checksum.

How the models stand to the code:

- A tree's `null` and empty child lists are one thing, except in the two lookups that tell them apart, where the nodes
  with null lists are a parameter. `idString` is the path of keys: `IdStrings` proves when strings and paths
  correspond. Names are abstract; only "Other" is set apart.
- Metrics are unbounded integers, and `selected <= 0.9 * overall` is `10 * selected <= 9 * overall`.
- The value map is carried along exactly, with missing values and the NaN that adding to them gives. A comparison
  with NaN is inconsistent, so sorting is any rearrangement that is a function of the value map and the ids; the
  theorems hold for all of them, and for two different ones where selecting and replaying meet, because the replay
  takes 0 for a missing value and selecting does not. Those about which children are larger and come first ask that
  sorting numbers puts the larger first.
- PPC registers and words are numbers below 2^64 and 2^32; memory is big-endian. Branch fields are cut to their
  width, as in a product build.
- `qsort` is an insertion sort, `hsearch` keeps the first entry of a name, `pread` is complete. The layout of
  `prstatus_t` is a parameter; notes are little-endian.
- What opening a core file depends on (memory contents, files, ELF headers) is one arbitrary script of replies; so is
  what an address lookup gives once `read_lib_segments` has added a map, because the index is then out of step.
- Every lemma carries `{:induction false}`: no proof rests on automatic induction.

Where the code does less than its callers may expect:

- A key that contains `_` makes id strings ambiguous: `IdStrings.SharedIffSeparator`.
- A snapshot with the time of the one nodes are selected on is not shown; its slot shows that one
  (`Session.SameTimeShowsOther`). `Session.BuiltFaithful` has the exact condition.
- `is_within_range_of_b` and `is_within_range_of_bcxx` accept targets that are a multiple of 2^32 further away
  (`PpcBranches.FarTargetPasses`); `PpcBranches.RangeCheck` has the exact condition.
- The same checks refuse the farthest target ahead, which the field could hold (`PpcBranches.AcceptedIff`).
- "Other" is meant to be shown last; in a replayed tree it comes before every class that shrank by more than one
  (`Session.OtherPlace`), because its value there is -1.
- A load of a large constant over its own base, and a store whose scratch register is its base or its source, access
  something else: `PpcMemory.LoadExactIff` and `PpcMemory.StoreExactIff` say exactly when.
- A library segment can take over a one-page map and grow into the next one, so that two maps hold the same addresses
  (`CoreOpen.GrowsIntoNext`). `CoreOpen.SegmentApartIff` says exactly when one segment does this, and
  `CoreOpen.OpenedCanBeRead` has a condition on the input under which a whole run never does.
- Looking up the ancestors of ids that are not in the tree does not report failure as its message intends, and below a
  leaf with a null child list it returns a chain that is one short: `Lookup.FindAncestorsOfNodeByIds`.

## Model

| member | source | states |
|---|---|---|
| ReductionTheorems.ReduceTreeConserves | ant-tracks-analyzer/WebTreeViz/src/visualizations/util/Helpers.ts:293-358 | Selecting on any balanced, non-negative, well-keyed tree leaves the root's totals alone; nodes with no "Other" on their path still sum exactly in both metrics, every "Other" node sums exactly in the chosen metric, and nowhere do children exceed their parent |
| ReductionTheorems.ReplayConserves | ant-tracks-analyzer/WebTreeViz/src/visualizations/util/Helpers.ts:206-251 | The same for replaying any selection without "Other" ids, and there every "Other" node sums exactly in both metrics |
| ReductionTheorems.ReduceTreeCovers | ant-tracks-analyzer/WebTreeViz/src/visualizations/util/Helpers.ts:299-352 | At every node of the result, inside "Other" as well, the children kept are just enough: they exceed 90% of the node, or are nine, or are all its non-Other children, and without the last of them it would not be 90%; "Other" is in turn such a reduction of all that was folded away put together |
| ReductionTheorems.ReplayIsNarrow | ant-tracks-analyzer/WebTreeViz/src/visualizations/util/Helpers.ts:206-251 | Nine children and one "Other" at most, at every node: of the tree on which nodes are selected, and of every other tree reduced with the ids selected there, whatever orders the two sorts produce |
| ReductionTheorems.ReplayAgrees | ant-tracks-analyzer/WebTreeViz/src/visualizations/util/Helpers.ts:206-251 | On the tree it was made on, replaying the selection reaches the same paths outside "Other", with the same values in both metrics, as selecting did, although the two sort differently |
| Folding.FoldedPointwise | ant-tracks-analyzer/WebTreeViz/src/visualizations/util/Helpers.ts:75-103 | The "Other" node holds, at every path and in each metric, the sum of what the folded children hold there and what it held before, and it has exactly the paths that one of them has |
| Folding.FixOtherAt | ant-tracks-analyzer/WebTreeViz/src/visualizations/util/Helpers.ts:360-383 | Fixing an "Other" node that has children raises its nested "Other" child by exactly what the children leave uncovered, in each metric asked for, and changes the value at no other path; a nested "Other" appears exactly where something is uncovered |
| Folding.FixOtherKeeps | ant-tracks-analyzer/WebTreeViz/src/visualizations/util/Helpers.ts:360-383 | All children but the nested "Other" stay what and where they are, a childless node stays childless, and at most one childless "Other" comes last |
| Folding.ReduceTreeFolds | ant-tracks-analyzer/WebTreeViz/src/visualizations/util/Helpers.ts:293-358 | Selecting on any well-keyed tree loses nothing, at every node of the result: every kept child is a reduction of a child; there is an "Other" child exactly where something was folded away or one was there; at every path below it without a further "Other" it has, in both metrics, the sum of what the folded children and the earlier "Other" have there; and it is a reduction of all of these put together, childless only where none of them has children |
| Folding.ReduceBySetFolds | ant-tracks-analyzer/WebTreeViz/src/visualizations/util/Helpers.ts:206-251 | So does replaying any selection without "Other" ids |
| Session.BuiltFolds | ant-tracks-analyzer/WebTreeViz/src/visualizations/VisualizationManager.ts:201-265 | Of every displayed tree: the one nodes are selected on, and every one with a time of its own, hold in their "Other" nodes all that is folded away of their snapshots |
| Session.SelectsLargest | ant-tracks-analyzer/WebTreeViz/src/visualizations/VisualizationManager.ts:201-265 | For every metric and mode, where sorting numbers puts the larger first: in the displayed tree that the mode selects on (the first for the start size, the last for end size and growth), at every node with no "Other" on its path, no child that is folded away has a larger start size, end size or growth than one that is kept |
| Session.ShownByRank | ant-tracks-analyzer/WebTreeViz/src/visualizations/VisualizationManager.ts:201-265 | In every displayed tree, at every node with no "Other" on its path, the children stand in descending order of their start size, end size or growth |
| Session.OtherPlace | ant-tracks-analyzer/WebTreeViz/src/visualizations/util/Helpers.ts:206-251 | Where "Other" stands among them: last in a tree that shows the selecting one; in any other tree, where the snapshots that give the values have no "Other" there themselves, behind every child with a value above -1 and before every child below -1 |
| Ranking.LargestKept | ant-tracks-analyzer/WebTreeViz/src/visualizations/util/Helpers.ts:299-352 | The same of the reduction itself, for any values that give every node a number |
| Ranking.ReduceTreePlain | ant-tracks-analyzer/WebTreeViz/src/visualizations/util/Helpers.ts:293-358 | Folding and reducing change no sort value of a node whose ancestors are not "Other" |
| Ordering.SelectOrdered | ant-tracks-analyzer/WebTreeViz/src/visualizations/util/Helpers.ts:293-358 | At every node of the reduced tree with no "Other" on its path the children are in descending order of their values, with "Other" last |
| Ordering.ReplayOrdered | ant-tracks-analyzer/WebTreeViz/src/visualizations/util/Helpers.ts:206-251 | At every node of a replayed tree with no "Other" on its path the children are in descending order of their values, where an "Other" without value counts as -1 |
| MergedValues.MergeValuesAt | ant-tracks-analyzer/WebTreeViz/src/visualizations/util/Helpers.ts:75-103 | Merging at any level adds the sort value of every node merged to that of the path it moves to, and changes none that no node moves to |
| MergedValues.AbsorbValuesAt | ant-tracks-analyzer/WebTreeViz/src/visualizations/util/Helpers.ts:299-352 | After all folded children have been merged, the sort value at every path below "Other" is the sum of what they and the earlier "Other" had there, in the order of merging |
| MergedValues.MergedValueStays | ant-tracks-analyzer/WebTreeViz/src/visualizations/util/Helpers.ts:299-352 | These sums still are the values of the children of "Other" when the whole node has been reduced |
| MergedValues.ChildValuesStay | ant-tracks-analyzer/WebTreeViz/src/visualizations/util/Helpers.ts:299-352 | What reducing a kept child leaves as sort values below it is left when the parent has been reduced: neither later siblings nor the folding touch it |
| MergedValues.LargestBelowOther | ant-tracks-analyzer/WebTreeViz/src/visualizations/util/Helpers.ts:299-352 | Directly below "Other", no child that is folded away again has a larger sum of values than one that is kept, where all that meets there has a number |
| Selection.CutIsShortest | ant-tracks-analyzer/WebTreeViz/src/visualizations/util/Helpers.ts:306-328 | The loop keeps the shortest run of children that passes 90%, reaches nine, or is everything |
| Selection.ReduceTreeIds | ant-tracks-analyzer/WebTreeViz/src/visualizations/util/Helpers.ts:299-352 | The recorded ids lie below the node, end in no "Other", and at most nine of them share a parent |
| Reduce.OtherIsLower | ant-tracks-analyzer/WebTreeViz/src/visualizations/util/Helpers.ts:299-352 | The "Other" subtree put together from a node's children is strictly lower than the node: the measure on which the recursion into it terminates |
| Merge.MergePointwise | ant-tracks-analyzer/WebTreeViz/src/visualizations/util/Helpers.ts:75-103 | Merging two forests at any level adds them path by path in each metric, and invents no path |
| Merge.MergeKeyed | ant-tracks-analyzer/WebTreeViz/src/visualizations/util/Helpers.ts:75-103 | The component at length - 2 - level is exactly the key of the subtree merged away: below "Other", full key = parent's full key + own key and sibling keys stay distinct, at every level |
| Merge.MergeHeight | ant-tracks-analyzer/WebTreeViz/src/visualizations/util/Helpers.ts:75-103 | A merge is no taller than the taller of its parts |
| PathInvariant.ReduceTreeKeyed | ant-tracks-analyzer/WebTreeViz/src/visualizations/util/Helpers.ts:293-358 | The selecting reduction keeps full key = parent's full key + own key, and distinct sibling keys, everywhere |
| PathInvariant.ReduceBySetKeyed | ant-tracks-analyzer/WebTreeViz/src/visualizations/util/Helpers.ts:206-251 | So does the replay |
| TreeHeap.MergeTreeIntoOtherNode | ant-tracks-analyzer/WebTreeViz/src/visualizations/util/Helpers.ts:75-103 | On node objects: the target's children become the merge of both forests and the value map follows; the merged-away tree and everything else is untouched |
| TreeHeap.GetOrCreateOtherNode | ant-tracks-analyzer/WebTreeViz/src/visualizations/util/Helpers.ts:265-290 | Finds the "Other" child, or appends a fresh empty one with the right path, and tells which |
| TreeHeap.FixMissingDataOfOtherNode | ant-tracks-analyzer/WebTreeViz/src/visualizations/util/Helpers.ts:360-383 | Puts the difference between an "Other" node and its children into a nested "Other" child, in the metrics asked for, on node objects: Folding.FixOtherAt and Folding.FixOtherKeeps say what that does |
| TreeHeap.ReduceTreeRec | ant-tracks-analyzer/WebTreeViz/src/visualizations/util/Helpers.ts:299-352 | The in-place reduction of node objects computes exactly the reduced tree, value map and recorded ids of the specification, touching only the nodes it owns and fresh ones |
| TreeHeap.ReduceBySetRec | ant-tracks-analyzer/WebTreeViz/src/visualizations/util/Helpers.ts:206-251 | The same for the replay |
| TreeHeap.ConvertNodeRecursively | ant-tracks-analyzer/WebTreeViz/src/visualizations/util/Helpers.ts:428-437 | An equal tree that shares no object with the original |
| MissingData.HandleMissingBalances | ant-tracks-analyzer/WebTreeViz/src/dao/DataInitializer.ts:69-110 | Every tree whose inner nodes are at least the sum of their children becomes one where equality holds at every depth in both metrics |
| MissingData.HandleMissingRaises | ant-tracks-analyzer/WebTreeViz/src/dao/DataInitializer.ts:69-110 | For every tree at all: only "Other" nodes are raised or added, every other node keeps its values and its place |
| MissingData.HandleMissingIdempotent | ant-tracks-analyzer/WebTreeViz/src/dao/DataInitializer.ts:69-110 | A balanced tree is left as it is |
| MissingData.HandleMissingCompletes | ant-tracks-analyzer/WebTreeViz/src/dao/DataInitializer.ts:69-110 | For every tree at all: from the root down through non-Other children the sums become exact in both metrics, except that a leaf, and the whole subtree of a node that its children exceed, stay as they are |
| MissingData.RaisedKeyed | ant-tracks-analyzer/WebTreeViz/src/dao/DataInitializer.ts:99-109 | Adding and raising "Other" nodes keeps paths right and sibling keys distinct |
| MissingData.CompletedIsClean | ant-tracks-analyzer/WebTreeViz/src/dao/DataInitializer.ts:68-115 | A covering, non-negative, well-keyed tree is completed to one that is balanced, non-negative and well keyed: what the results about reductions and sessions ask for |
| MissingDataHeap.HandleMissingDataRecursively | ant-tracks-analyzer/WebTreeViz/src/dao/DataInitializer.ts:69-110 | The in-place recursion, which visits a raised "Other" node again, terminates and computes that completion |
| MissingDataHeap.HandleMissingData | ant-tracks-analyzer/WebTreeViz/src/dao/DataInitializer.ts:68-115 | Every tree of the list is completed, each on its own |
| Lookup.FindByFullKey | ant-tracks-analyzer/WebTreeViz/src/visualizations/util/Helpers.ts:125-140 | In a well-keyed tree a node is found under a path if and only if the path is its full key |
| Lookup.FindDescendentByIds | ant-tracks-analyzer/WebTreeViz/src/visualizations/util/Helpers.ts:125-140 | The walk returns the very object at that path, and null exactly when there is none |
| Lookup.FindAncestorsOfNodeByIds | ant-tracks-analyzer/WebTreeViz/src/visualizations/util/Helpers.ts:159-176 | The chain of objects from the root, one per key, when the path leads to a node; the chain without the last key when only that one leads nowhere and the node before it has a null child list; no result in all other cases |
| Lookup.FindParentOfNodeById | ant-tracks-analyzer/WebTreeViz/src/visualizations/util/Helpers.ts:447-462 | The object one key above when that path leads to a node; else the node with a null child list at which it ends; else nothing |
| Lookup.ParentHasChild | ant-tracks-analyzer/WebTreeViz/src/visualizations/util/Helpers.ts:447-462 | For every node of the tree but the root, what is found one key above has the node among its children |
| Lookup.ClosestIsDeepest | ant-tracks-analyzer/WebTreeViz/src/visualizations/util/Helpers.ts:547-562 | The node chosen lies on the path, and it is the last one up to which every node has children |
| Lookup.GetClosestDisplayableNode | ant-tracks-analyzer/WebTreeViz/src/visualizations/util/Helpers.ts:547-562 | The loop returns that node, as an object of the tree, for any path and any tree |
| Lookup.GetClosestDisplayableNode2 | ant-tracks-analyzer/WebTreeViz/src/visualizations/util/Helpers.ts:564-584 | The version with a trailing parent, whose code is also that of the older one at lines 522-545, returns the same node for any path and tree, except where all of the path is found but the node there has another full key: then the one above |
| Lookup.NoOtherNode | ant-tracks-analyzer/WebTreeViz/src/visualizations/util/Helpers.ts:564-584 | In a well-keyed tree whose root has the first of the ids that exception does not occur |
| Growth.CalculateAbsGrowth | ant-tracks-analyzer/WebTreeViz/src/visualizations/util/Helpers.ts:385-426 | At every level of the recursion: the entries below the parent become end minus start (absent counts as 0) for exactly the paths in either tree, nothing else changes, and no pair of parents is visited twice |
| Growth.GrowthBetween | ant-tracks-analyzer/WebTreeViz/src/visualizations/util/Helpers.ts:385-426 | From an empty map: exactly the non-root paths of either tree, each with end minus start, also where a node is a leaf in one tree and inner in the other |
| Sizes.CalculateSizeAtSpecificTree | ant-tracks-analyzer/WebTreeViz/src/visualizations/util/Helpers.ts:190-204 | The traversal fills the map that SizesExact describes |
| Sizes.SizesExact | ant-tracks-analyzer/WebTreeViz/src/visualizations/util/Helpers.ts:190-204 | The map has exactly the paths strictly below the root, each with the value of its node |
| IdStrings.SplitJoinIff | ant-tracks-analyzer/WebTreeViz/src/visualizations/util/Helpers.ts:443-445 | Splitting an id string gives the path back if and only if no key contains '_' |
| IdStrings.JoinInjective | ant-tracks-analyzer/WebTreeViz/src/visualizations/util/Helpers.ts:443-445 | Two paths without '_' in their keys and with one id string are equal |
| IdStrings.SharedIffSeparator | ant-tracks-analyzer/WebTreeViz/src/visualizations/util/Helpers.ts:443-445 | A different path without '_' in its keys has the same id string if and only if a key of the path contains '_' |
| IdStrings.DescendantIffPrefix | ant-tracks-analyzer/WebTreeViz/src/visualizations/util/Helpers.ts:610-612 | Where no key contains '_', the test on id strings holds if and only if one path is a prefix of the other |
| Session.SessionSafe | ant-tracks-analyzer/WebTreeViz/src/visualizations/VisualizationManager.ts:160-265 | After every run of metric and mode switches, steps through the trees and drill-downs: the index is in range, the current node is a node of the displayed tree and its path can be looked up; and of balanced snapshots the slots that show them faithfully are exactly those of BuiltFaithful |
| Session.RunGood | ant-tracks-analyzer/WebTreeViz/src/visualizations/VisualizationManager.ts:526-653 | The same state invariant over every run from any good state, for snapshots that need not be balanced |
| Session.NextRun | ant-tracks-analyzer/WebTreeViz/src/visualizations/VisualizationManager.ts:530-534 | Going on n times shows the tree n places further, or the last one, with metric and mode as they were |
| Session.PreviousRun | ant-tracks-analyzer/WebTreeViz/src/visualizations/VisualizationManager.ts:536-540 | Going back n times shows the tree n places before, or the first one |
| Session.LastChoiceCounts | ant-tracks-analyzer/WebTreeViz/src/visualizations/VisualizationManager.ts:160-195 | The last choice of a metric, a mode, a tree or a node is what is shown, and leaves the other choices alone |
| Session.BuiltFaithful | ant-tracks-analyzer/WebTreeViz/src/visualizations/VisualizationManager.ts:201-265 | For every metric and mode a displayed tree has its snapshot's totals, shows under paths without "Other" only nodes of its snapshot with their values, is well keyed, at most ten wide and sums as the reductions promise, if and only if the snapshot's time is not that of the tree nodes are selected on, or the two agree in the root and in all selected nodes |
| Session.BuiltTree | ant-tracks-analyzer/WebTreeViz/src/visualizations/VisualizationManager.ts:242-265 | Which tree fills each slot: the one nodes were selected on, wherever the time is the same, and else the replay of its selection on the slot's own snapshot, with the values the slots before have left |
| Session.OwnTimeShowsOwn | ant-tracks-analyzer/WebTreeViz/src/visualizations/VisualizationManager.ts:250-262 | A slot whose time is not that of the tree nodes are selected on, and that tree's own slot, show their own snapshots |
| Session.OtherTotalsNotFaithful | ant-tracks-analyzer/WebTreeViz/src/visualizations/VisualizationManager.ts:250-262 | After every run: a slot with the time of the tree nodes are selected on, but with other totals, does not show its snapshot faithfully |
| Session.SameTimeShowsOther | ant-tracks-analyzer/WebTreeViz/src/visualizations/VisualizationManager.ts:252-256 | Two one-node snapshots of one time with sizes 1 and 2: the second slot shows size 1 |
| Manager.CloneTrees | ant-tracks-analyzer/WebTreeViz/src/visualizations/util/Helpers.ts:439-441 | Equal trees, no object shared with the originals or with each other |
| Manager.SelectNodesAndReduceTrees | ant-tracks-analyzer/WebTreeViz/src/visualizations/VisualizationManager.ts:242-265 | The loop over the clones fills the slots with the trees of the specification |
| Manager.CreateGlobalTrees | ant-tracks-analyzer/WebTreeViz/src/visualizations/VisualizationManager.ts:201-240 | Works on fresh objects only, so the originals are unchanged; the result depends only on the snapshots, the metric and the mode, so an earlier pair of options gives equal trees again |
| Manager.VisualizationManager.constructor | ant-tracks-analyzer/WebTreeViz/src/visualizations/VisualizationManager.ts:74-110 | Starts with bytes shown, growth as the mode and the root of the first tree as the current node, with the growth of both metrics and the trees for these options |
| Manager.VisualizationManager.UpdateDisplayedNodeToClosestExistingOne | ant-tracks-analyzer/WebTreeViz/src/visualizations/VisualizationManager.ts:621-629 | The current node becomes the deepest node of the displayed tree on its old path up to which every node has children |
| Manager.VisualizationManager.PerformUpdateAfterChangingOption | ant-tracks-analyzer/WebTreeViz/src/visualizations/VisualizationManager.ts:172-182 | The trees become those for the options, and the current node the deepest such node on its old path; the originals stay |
| Manager.VisualizationManager.SwitchMetric | ant-tracks-analyzer/WebTreeViz/src/visualizations/VisualizationManager.ts:160-170 | The metric is the one asked for, mode and displayed index stay; nothing changes if it was shown already, else the current node becomes the deepest displayable one on its old path; keeps the invariant |
| Manager.VisualizationManager.ChangeSortingMode | ant-tracks-analyzer/WebTreeViz/src/visualizations/VisualizationManager.ts:184-195 | The same with the mode, while metric and index stay |
| Manager.VisualizationManager.DisplayTree | ant-tracks-analyzer/WebTreeViz/src/visualizations/VisualizationManager.ts:631-644 | The index is the one asked for, metric and mode stay, and the current node becomes the deepest displayable one on its old path |
| Manager.VisualizationManager.DisplayNextTree | ant-tracks-analyzer/WebTreeViz/src/visualizations/VisualizationManager.ts:530-534 | The index grows by one, and the current node follows; at the last tree nothing changes |
| Manager.VisualizationManager.DisplayPreviousTree | ant-tracks-analyzer/WebTreeViz/src/visualizations/VisualizationManager.ts:536-540 | The index shrinks by one, and the current node follows; at the first tree nothing changes |
| Manager.VisualizationManager.DisplayNode | ant-tracks-analyzer/WebTreeViz/src/visualizations/VisualizationManager.ts:646-654 | Any node of the displayed tree becomes the current one |
| Manager.VisualizationManager.Breadcrumbs | ant-tracks-analyzer/WebTreeViz/src/visualizations/VisualizationManager.ts:360-361 | In every valid state the ancestor lookup succeeds and gives the objects from the root of the displayed tree to the current node |
| PpcAssembler.Assembler.LoadConstOptimized | ant-tracks-jvm/src/src/cpu/ppc/vm/assembler_ppc.cpp:357-425 | For every 64-bit x, with or without scratch register and returned rest: whatever the state, the emitted code leaves in d what together with the sign-extended rest is x mod 2^64, changes only d and the scratch register, and is at most five instructions; which rest is returned is stated exactly |
| PpcAssembler.EmittedWordsLoad | ant-tracks-jvm/src/src/cpu/ppc/vm/assembler_ppc.cpp:357-425 | The same of the emitted words, after any code: decoded and run from any state, they load the constant |
| PpcAssembler.CarryCompensated | ant-tracks-jvm/src/src/cpu/ppc/vm/assembler_ppc.cpp:365-375 | Adding a sign-extended chunk to the compensated rest shifted by 16 gives the number back |
| PpcAssembler.FourChunks | ant-tracks-jvm/src/src/cpu/ppc/vm/assembler_ppc.cpp:403-420 | Four compensated chunks, shifted and added in 64 bits, are the constant |
| PpcAssembler.Assembler.LoadThroughScratch | ant-tracks-jvm/src/src/cpu/ppc/vm/assembler_ppc.cpp:379-401 | The two words, loaded apart and joined by rldimi, are the constant up to the rest; a rest is left only where its sign extension cannot reach the high word |
| PpcAssembler.InsertHighWord | ant-tracks-jvm/src/src/cpu/ppc/vm/assembler_ppc.inline.hpp:254-257 | insrdi(d, tmp, 32, 0), that is rldimi by 32 with mask begin 0, puts the low word of tmp above the low word of d |
| PpcAssembler.ShiftLeftWord | ant-tracks-jvm/src/src/cpu/ppc/vm/assembler_ppc.inline.hpp:214-248 | sldi by 32, that is rldicr with mask end 31, is multiplication by 2^32 mod 2^64 |
| PpcPatching.LoadConst | ant-tracks-jvm/src/src/cpu/ppc/vm/assembler_ppc.cpp:331-352 | Emits exactly the five instructions, and they leave x in d, for every x, d and scratch register |
| PpcPatching.LoadConstLoads | ant-tracks-jvm/src/src/cpu/ppc/vm/assembler_ppc.cpp:331-352 | From every state the five instructions leave x in d and change nothing but d and the scratch register |
| PpcPatching.PatchTurns | ant-tracks-jvm/src/src/cpu/ppc/vm/assembler_ppc.hpp:1085-1090 | set_imm on the four immediate words turns the program for any x into the program for any y |
| PpcPatching.PatchedLoads | ant-tracks-jvm/src/src/cpu/ppc/vm/assembler_ppc.hpp:1085-1090 | So the patched words, decoded and run from any state, load y |
| PpcPatching.WordsDiffer | ant-tracks-jvm/src/src/cpu/ppc/vm/assembler_ppc.cpp:331-352 | Two programs agree in the high halves of all words and in the whole of the one word that is not patched |
| PpcIsa.DecodeEncode | ant-tracks-jvm/src/src/cpu/ppc/vm/assembler_ppc.inline.hpp:83-309 | Every instruction that fits its fields is read back from its word as it was |
| PpcIsa.KnownWords | ant-tracks-jvm/src/src/cpu/ppc/vm/assembler_ppc.inline.hpp:83-257 | The words for li, lis, ori, oris, sldi by 32 and insrdi, written out |
| PpcIsa.KnownLoads | ant-tracks-jvm/src/src/cpu/ppc/vm/assembler_ppc.inline.hpp:261-283 | The words for all loads, with displacement and indexed |
| PpcIsa.KnownStores | ant-tracks-jvm/src/src/cpu/ppc/vm/assembler_ppc.inline.hpp:286-303 | The words for all stores |
| PpcMachine.WordsRun | ant-tracks-jvm/src/src/cpu/ppc/vm/assembler_ppc.inline.hpp:83-309 | Running the encoded words is running the instructions |
| PpcFields.UFieldRoundTrip | ant-tracks-jvm/src/src/cpu/ppc/vm/assembler_ppc.hpp:896-914 | An unsigned field gives back every value that fits it, at every position |
| PpcFields.JoinIsSum | ant-tracks-jvm/src/src/cpu/ppc/vm/assembler_ppc.inline.hpp:83-309 | Joining the fields of a D-form word by bitwise or is adding them |
| PpcFields.JoinIsSumDs | ant-tracks-jvm/src/src/cpu/ppc/vm/assembler_ppc.inline.hpp:266-303 | The same for DS-form words, whose offsets are multiples of four |
| PpcFields.JoinIsSumX | ant-tracks-jvm/src/src/cpu/ppc/vm/assembler_ppc.inline.hpp:261-302 | The same for X-form words |
| PpcFields.JoinIsSumMd | ant-tracks-jvm/src/src/cpu/ppc/vm/assembler_ppc.hpp:1002-1026 | The same for MD-form words, with the split shift amount and the rotated mask bound |
| PpcWords.JoinedDForm | ant-tracks-jvm/src/src/cpu/ppc/vm/assembler_ppc.inline.hpp:83-309 | The 32-bit word joined from the fields of a D-form instruction is, read as a number, the one that PpcIsa encodes from the numbers in the fields |
| PpcWords.JoinedDsForm | ant-tracks-jvm/src/src/cpu/ppc/vm/assembler_ppc.inline.hpp:266-303 | The same for DS-form |
| PpcWords.JoinedXForm | ant-tracks-jvm/src/src/cpu/ppc/vm/assembler_ppc.inline.hpp:261-302 | The same for X-form |
| PpcWords.JoinedMdForm | ant-tracks-jvm/src/src/cpu/ppc/vm/assembler_ppc.hpp:1002-1026 | The same for MD-form, with the split shift amount and the rotated mask bound |
| PpcMemory.EmitLoad | ant-tracks-jvm/src/src/cpu/ppc/vm/assembler_ppc.cpp:105-217 | Every register-or-constant load is the load that LoadExactIff speaks of: it sets only its destination and leaves memory alone, for each kind of load, small, large and baseless constants |
| PpcMemory.LoadExactIff | ant-tracks-jvm/src/src/cpu/ppc/vm/assembler_ppc.cpp:105-217 | Running the emitted code gives, in every state, the value at (constant or register) + base mod 2^64 if and only if it is not a large constant loaded over its own base |
| PpcMemory.EmitStore | ant-tracks-jvm/src/src/cpu/ppc/vm/assembler_ppc.cpp:219-301 | Every register-or-constant store is the store that StoreExactIff speaks of, and changes only memory and the scratch register |
| PpcMemory.StoreExactIff | ant-tracks-jvm/src/src/cpu/ppc/vm/assembler_ppc.cpp:219-301 | Running the emitted code leaves, in every state, exactly the source's bytes at (constant or register) + base mod 2^64 if and only if the scratch register, where it is used, is neither base nor source |
| PpcStorage.StoredBytes | ant-tracks-jvm/src/src/cpu/ppc/vm/assembler_ppc.cpp:219-301 | Byte by byte: the i-th of the eight, four, two or one bytes from (constant or register) + base on is the i-th highest byte of that part of the source register |
| PpcStorage.StoredIsLoaded | ant-tracks-jvm/src/src/cpu/ppc/vm/assembler_ppc.cpp:105-301 | An emitted store followed by an emitted load of the same width from the same address leaves in the destination what was in the source, cut to that width |
| PpcStorage.LoadAfterStore | ant-tracks-jvm/src/src/cpu/ppc/vm/assembler_ppc.cpp:105-301 | Loading what was just stored gives it back for all widths, cut to the width, and extended with zeros or with the sign as the load says |
| PpcStorage.OthersKept | ant-tracks-jvm/src/src/cpu/ppc/vm/assembler_ppc.cpp:219-301 | A store changes none but the eight, four, two or one bytes from its address on |
| PpcStorage.HighBytesFirst | ant-tracks-jvm/src/src/cpu/ppc/vm/assembler_ppc.cpp:105-301 | The word at the address of a stored doubleword is its high half, and the narrower parts at its end are its low ones |
| PpcBranches.PatchKeeps | ant-tracks-jvm/src/src/cpu/ppc/vm/assembler_ppc.cpp:63-74 | Patching leaves opcode, BO, BI, AA and LK; the field becomes the low bits of the distance |
| PpcBranches.PatchRoundTrip | ant-tracks-jvm/src/src/cpu/ppc/vm/assembler_ppc.cpp:63-85 | branch_destination of the patched word is the destination if and only if the distance is a multiple of four that fits the field |
| PpcBranches.LastPatchWins | ant-tracks-jvm/src/src/cpu/ppc/vm/assembler_ppc.cpp:63-74 | A second patch leaves no trace of the first |
| PpcBranches.EmittedFields | ant-tracks-jvm/src/src/cpu/ppc/vm/assembler_ppc.inline.hpp:338-345 | The word that b, bl, bc or bcl emits decodes to that opcode, BO, BI and LK, with AA clear and the low bits of the distance in its field |
| PpcBranches.RangeCheck | ant-tracks-jvm/src/src/cpu/ppc/vm/assembler_ppc.inline.hpp:353-378 | For every target that passes is_within_range_of_b or is_within_range_of_bcxx, the destination decoded from the emitted word is the target if and only if the distance fits 32 bits |
| PpcBranches.AcceptedIff | ant-tracks-jvm/src/src/cpu/ppc/vm/assembler_ppc.inline.hpp:353-378 | For every distance that fits 32 bits the check accepts a target if and only if the word emitted for it branches there, with one exception: the farthest target ahead is refused |
| PpcBranches.KnownBranches | ant-tracks-jvm/src/src/cpu/ppc/vm/assembler_ppc.inline.hpp:338-345 | The words for branches eight bytes ahead, eight back and to themselves, written out |
| PpcBranches.FarTargetPasses | ant-tracks-jvm/src/src/cpu/ppc/vm/assembler_ppc.hpp:1066-1070 | A target 2^32 bytes ahead passes the check, and the word emitted for it decodes to a branch to itself: disp cuts the distance to 32 bits |
| CoreMaps.CoreReader.AddMapInfo | ant-tracks-jvm/src/agent/src/os/linux/ps_core.c:121-134 | A fresh map with these fields at the head of the list, and the count in step |
| CoreMaps.CoreReader.SortMapArray | ant-tracks-jvm/src/agent/src/os/linux/ps_core.c:419-459 | The index becomes a sorted permutation of the whole list |
| CoreMaps.SortMapsSorts | ant-tracks-jvm/src/agent/src/os/linux/ps_core.c:405-459 | The sort of the index orders by address |
| CoreMaps.CoreReader.CoreLookup | ant-tracks-jvm/src/agent/src/os/linux/ps_core.c:152-196 | For every address, on a non-empty index in step with the list: the binary search ends at a map nearest before the address, and gives it if it holds the address, else what a scan of the class-sharing list gives; of disjoint maps that is what a linear scan of both lists gives |
| CoreMaps.OnlyCandidate | ant-tracks-jvm/src/agent/src/os/linux/ps_core.c:152-180 | The last index entry at or before an address is the only map that can hold it |
| CoreRead.CoreReadData | ant-tracks-jvm/src/agent/src/os/linux/ps_core.c:465-513 | Succeeds if and only if the range starts inside a map and is covered by maps and the rests of their last pages; then every byte of the buffer is that of the flat memory: the file byte of its map, or 0 in a fractional last page |
| CoreRead.OneByte | ant-tracks-jvm/src/agent/src/os/linux/ps_core.c:465-513 | That flat memory has one byte per address: with page-disjoint maps no two answers are possible |
| CoreRead.ReadMap | ant-tracks-jvm/src/agent/src/os/linux/ps_core.c:479-503 | One turn of the loop fills what one map and the rest of its last page contribute, and stops at a page boundary or at the end of the buffer |
| CoreGrab.GrabCore | ant-tracks-jvm/src/agent/src/os/linux/ps_core.c:1005-1092 | In every run, class sharing included, each read of debuggee memory happens while the index is a sorted permutation of the whole list; the run succeeds exactly when no read fails and no library conflicts, the index is then in step, and both map lists are exactly those of the specification |
| CoreGrab.GrabbedFrom | ant-tracks-jvm/src/agent/src/os/linux/ps_core.c:729-861 | Every map of an opened core file is backed by a segment of the file it names, writable ones by the core file only; a library's map lies at load bias + p_vaddr of a text segment, or has taken over a map that held this address (while no map had been added since the last sort) |
| CoreGrab.TakenOverStillHolds | ant-tracks-jvm/src/agent/src/os/linux/ps_core.c:758-777 | A map of another file that is taken over because it holds an address still holds it afterwards |
| CoreGrab.AnswersExact | ant-tracks-jvm/src/agent/src/os/linux/ps_core.c:152-180 | What a lookup gives during the opening is, of maps that share no address, the one map that holds the address |
| CoreGrab.GrabbedKeepsAddresses | ant-tracks-jvm/src/agent/src/os/linux/ps_core.c:729-1002 | The maps of the core file and of the executable keep their addresses and their order, whatever libraries replace or add |
| CoreGrab.ReadSegments | ant-tracks-jvm/src/agent/src/os/linux/ps_core.c:670-726 | Adds one map per PT_LOAD segment that is not empty, for the executable only those that are not writable, with the segment's fields |
| CoreGrab.ReadLibSegments | ant-tracks-jvm/src/agent/src/os/linux/ps_core.c:729-785 | Each text segment looks up its address, by the search itself as long as no map has been added since the last sort: it adds a map there, or takes over the one found with the size rounded up to pages; fails exactly on an address conflict |
| CoreGrab.ReadSharedLibInfo | ant-tracks-jvm/src/agent/src/os/linux/ps_core.c:872-1002 | The search for DT_DEBUG, the interpreter and the link-map loop: every read in step, maps and outcome as specified |
| CoreGrab.InitClassSharing | ant-tracks-jvm/src/agent/src/os/linux/ps_core.c:290-397 | Every read in step; succeeds exactly when the symbols, the flag, the path and the archive can be read, and the class-sharing list is then the archive's read-only spaces |
| CoreGrab.SharedFrom | ant-tracks-jvm/src/agent/src/os/linux/ps_core.c:290-397 | The class-sharing maps are exactly those of the archive's read-only spaces, at their base with the size in use |
| CoreOpen.OpenedCanBeRead | ant-tracks-jvm/src/agent/src/os/linux/ps_core.c:670-861 | In every run on segments with a good layout (page-aligned, apart from each other except where a library segment starts where a map of the core file or the executable starts, and nothing looked up after an add) the maps left behind share no page, class-sharing maps included: what core_read_data needs |
| CoreOpen.SegmentApartIff | ant-tracks-jvm/src/agent/src/os/linux/ps_core.c:746-777 | One text segment leaves page-disjoint maps page-disjoint if and only if no other map starts in the pages it then has, and, where it adds a map, its address is a page boundary |
| CoreOpen.GrowsIntoNext | ant-tracks-jvm/src/agent/src/os/linux/ps_core.c:758-777 | Not so without it: a library segment that takes over a one-page map grows into the map behind it |
| CoreOpen.InterpMapped | ant-tracks-jvm/src/agent/src/os/linux/ps_core.c:729-802 | After every successful run on such a layout, each segment of the interpreter that is neither writable nor empty has a map of its file, with its offset, at load bias + p_vaddr, of its size or that size rounded up to pages |
| CoreOpen.LibraryMapped | ant-tracks-jvm/src/agent/src/os/linux/ps_core.c:872-1002 | The same for each library that the link map names and that can be opened |
| CoreOpen.CoreSegmentMapped | ant-tracks-jvm/src/agent/src/os/linux/ps_core.c:670-726 | Each dumped segment of the core file keeps its map unless a library segment lies at its address |
| CoreOpen.DumpReadsBack | ant-tracks-jvm/src/agent/src/os/linux/ps_core.c:465-513 | So reading any range of such a segment succeeds, and gives the bytes of the core file at the segment's offset |
| CoreOpen.DumpReadable | ant-tracks-jvm/src/agent/src/os/linux/ps_core.c:465-513 | A read that starts inside such a segment and stays in the pages of such segments succeeds, however many it crosses |
| CoreOpen.DumpTailIsZero | ant-tracks-jvm/src/agent/src/os/linux/ps_core.c:492-503 | Behind the end of such a segment, up to the end of its last page, zeros are read |
| CoreOpen.TextReadsBack | ant-tracks-jvm/src/agent/src/os/linux/ps_core.c:465-513 | Reading any range of a library's text gives the bytes of the library's file |
| CoreOpen.SharedReadsBack | ant-tracks-jvm/src/agent/src/os/linux/ps_core.c:290-397 | With class sharing on, reading any range of a read-only space gives the bytes of the archive |
| CoreNotes.ProcHandle.HandleNote | ant-tracks-jvm/src/agent/src/os/linux/ps_core.c:609-667 | For every list of well-formed notes laid out with 4-byte padding: reads exactly the kinds and descriptions of these notes, in order, adds one thread per NT_PRSTATUS in reverse order with the count in step, and takes the entry point from the last auxiliary vector that has one |
| CoreNotes.ProcHandle.HandleAuxv | ant-tracks-jvm/src/agent/src/os/linux/ps_core.c:645-657 | The first AT_ENTRY before the terminating pair sets the entry point; without one it stays |
| CoreNotes.AuxRoundTrip | ant-tracks-jvm/src/agent/src/os/linux/ps_core.c:645-657 | Every auxiliary vector written out ends where it should and gives back its first AT_ENTRY |
| CoreNotes.ThreadOfNote | ant-tracks-jvm/src/agent/src/os/linux/ps_core.c:609-667 | Each note of kind 1 becomes one thread, with its id and its registers, after the threads of all later such notes |
| CoreNotes.EntryOfNotes | ant-tracks-jvm/src/agent/src/os/linux/ps_core.c:609-667 | The entry point is that of the last auxiliary vector (kind 6) with an entry of kind 9, and else the one from before |
| CoreNotes.KnownNote | ant-tracks-jvm/src/agent/src/os/linux/ps_core.c:633-659 | The bytes of a note, written out: name size, descriptor size, kind, then both parts padded to four bytes |
| CoreSymbols.FindBaseAddress | ant-tracks-jvm/src/agent/src/os/linux/salibelf.c:105-126 | The lowest address of the PT_LOAD segments, and the highest address when there is none |
| CoreSymbols.BuildSymtab | ant-tracks-jvm/src/agent/src/os/linux/symtab.c:402-434 | One entry per symbol, filled for named functions and data, and a name table that leads to the first of each name |
| CoreSymbols.SearchSymbol | ant-tracks-jvm/src/agent/src/os/linux/symtab.c:507-530 | Searching a table built with the lowest segment address, and given the base that contains it, yields load bias + st_value of the first kept symbol of the name, and 0 when there is none |
| CoreSymbols.NearestSymbol | ant-tracks-jvm/src/agent/src/os/linux/symtab.c:532-545 | The first entry whose range covers the offset, and the distance from its start |
| CoreSymbols.BaseCancels | ant-tracks-jvm/src/agent/src/os/linux/symtab.c:350-427 | The lowest-segment address that is added to the load bias and subtracted from the symbol value cancels, in 64-bit arithmetic |
| CoreSymbols.LibList.AddLib | ant-tracks-jvm/src/agent/src/os/linux/libproc_impl.c:157-203 | The library goes to the tail of the list, with load bias + lowest PT_LOAD address as its base and a table of its symbols |
| CoreSymbols.LibList.LookupSymbol | ant-tracks-jvm/src/agent/src/os/linux/libproc_impl.c:206-228 | The first library that gives an address other than 0 decides |
| CoreSymbols.LibList.SymbolForPc | ant-tracks-jvm/src/agent/src/os/linux/libproc_impl.c:230-241 | The first library whose nearest symbol covers the address decides |
| CoreSymbols.LookupExact | ant-tracks-jvm/src/agent/src/os/linux/libproc_impl.c:206-228 | Looking up a name that only one defined function or data symbol of all libraries has gives load bias + st_value |
| CoreSymbols.PcExact | ant-tracks-jvm/src/agent/src/os/linux/libproc_impl.c:230-241 | With symbol ranges disjoint across all libraries, any pc in a symbol's range gives its name and the exact offset |
| CoreSymbols.SymbolRoundTrip | ant-tracks-jvm/src/agent/src/os/linux/libproc_impl.c:206-241 | Looking up a name and asking for any address d bytes into its range gives back the name and d |
| ProcRead.ProcessReadData | ant-tracks-jvm/src/agent/src/os/linux/ps_proc.c:61-108 | For every address, alignment and size: succeeds if and only if all words meeting the range can be peeked, then the buffer holds exactly the bytes of the range; no other word is peeked |
| ProcRead.ReadWord | ant-tracks-jvm/src/agent/src/os/linux/ps_proc.c:66-107 | One word's part of the range, also where it starts and ends inside that word |
| DebugLinkCrc.TableRight | ant-tracks-jvm/src/agent/src/os/linux/symtab.c:68-122 | Each of the 256 table entries is eight single-bit steps of the polynomial 0xEDB88320 |
| DebugLinkCrc.TableStepIsByteStep | ant-tracks-jvm/src/agent/src/os/linux/symtab.c:126-127 | For every state and byte, the table step is eight single-bit steps |
| DebugLinkCrc.ComputeCrc | ant-tracks-jvm/src/agent/src/os/linux/symtab.c:65-129 | The loop computes the checksum that CrcIsSerial and CrcConcat speak of |
| DebugLinkCrc.CrcConcat | ant-tracks-jvm/src/agent/src/os/linux/symtab.c:125-128 | Feeding two chunks one after the other is feeding their concatenation: the complements at both ends cancel |
| DebugLinkCrc.FileCrc | ant-tracks-jvm/src/agent/src/os/linux/symtab.c:146-151 | Feeding a file in chunks of any sizes is one pass over the whole |
| DebugLinkCrc.CrcIsSerial | ant-tracks-jvm/src/agent/src/os/linux/symtab.c:65-129 | The checksum of every byte sequence is the bit-serial CRC-32 of section 8 of RFC 1952 |

## Left out

- PpcIsa.DecodeEncode: covers the instructions these emitters use, not the rest of the instruction set.
- CoreNotes.ProcHandle.HandleNote: takes note segments that are well formed; on others the code reads beyond its buffer.
- CoreMaps.CoreReader.CoreLookup: takes an index that is not empty and in step with the list; `num_maps` grows before the next sort.
- CoreGrab.ReadLibSegments: once a map has been added, what a lookup gives is arbitrary; the code then searches an array that is too short.
- CoreGrab.ReadSharedLibInfo: the same.
- CoreGrab.GrabCore: the same.
- CoreGrab.GrabbedFrom: the same; it names the map that was taken over only for lookups before an add.
- CoreRead.CoreReadData: takes maps that share no page; `CoreOpen.OpenedCanBeRead` says when an opened core file has such maps.
- MissingDataHeap.HandleMissingDataRecursively: not the entries it makes in the sort map, which only place "Other" last.
- MissingDataHeap.HandleMissingData: the same.
- `time` and `classifiers` of the tree put in place of the one nodes were selected on, which are those of the last tree.
- Unique numbers, colours, labels, hover, breadcrumb geometry, timelines, charts and all drawing.
- `findMaxChildSizeOfNodeInTree`, `isAncestorOrSame`, text clipping and number formatting: one-line computations.
- `Assembler::andi`, the register-or-constant `add`, `subf` and `cmpd`, and all floating-point, vector, trap, cache and barrier emitters.
- Emission into a full code buffer, relocation records and the label machinery around `patched_branch`.
- Failing allocations, file opening, path mapping, debuginfo probing, `ptrace` attachment and `libthread_db`.
- Short reads, overlapping maps, and addresses whose page-rounded end passes 2^64.
- The BSD and Mach-O twins of the agent, `frame_ppc` and the other PPC files, the Python scripts and the benchmarks.
