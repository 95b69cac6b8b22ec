# NimoOS Photos: verified models

This project models the parts of the NimoOS Photos service whose correctness depends on a whole loop, a whole run or an
interleaving, and proves what those parts promise. Loops over arrays are methods over arrays, tables that the services
update are classes with map fields, and background protocols are state machines over their mutex sections and atomic
operations, with any number of callers, callbacks and workers.

| file | what it models |
|---|---|
| `Graphs.dfy`, `Sorting.dfy`, `Options.dfy` | walks and reachability, sorting by a total preorder, optional values |
| `DfsForest.dfy`, `LowLink.dfy`, `Splits.dfy`, `Articulation.dfy` | the cluster analysis tool: cut vertices by low-links, then component sizes by breadth-first search |
| `Density.dfy`, `Dbscan.dfy`, `NeighborWorkers.dfy`, `MatrixWorkers.dfy` | density clustering: a declarative labelling, the three implementations, and the workers that fill the neighbour lists and the distance matrix |
| `BurstGroups.dfy` | burst grouping by union-find with path halving |
| `Partitions.dfy` | the canonical signature of a labelling |
| `BackfillGate.dfy`, `RerunLatch.dfy` | the throttle of the backfill chains, and the latch that folds concurrent triggers into another pass |
| `People.dfy`, `PersonEdits.dfy`, `Rebuild.dfy`, `PersonTables.dfy`, `PersonRuns.dfy` | faces, persons and covers: recomputation, edits, the full rebuild, the statements that do them, and runs of all of it |
| `Moments.dfy`, `MomentRuns.dfy`, `MomentTables.dfy` | moments: recalculation in place, pin and exclude edits, runs, and the statements |
| `SearchCut.dfy`, `Search.dfy` | smart search: over-fetching, pages, OCR hits in front, the folded tier |
| `Trash.dfy`, `TrashRuns.dfy`, `TrashService.dfy` | trash and restore over a row and a file, interleaved with the watcher |
| `MountGuard.dfy` | offline tracking of removable drives under failing updates |

Vectors are opaque values with a symmetric distance, scores are reals, time is an integer, ids are naturals or strings.
What the outside world decides (whether an UPDATE, a rename or a copy works, when a timer fires, which thread moves next)
is an argument or a nondeterministic step.

## What is not as the code's comments say

Each item names a lemma with a concrete witness and the lemma that says exactly when the promise holds.

- With `minPoints = 1` isolated points do take the one-point branch, because the neighbours found exclude the point itself;
  the comment at service/faces.go:164-166 says that the branch is never reached. The model follows the code. Witness:
  `Density.OnePointTakesTheBranch`; the branch is taken exactly for the points without neighbours: `Density.IsolatedPoints`.
- A flag store that lands between the holder's last look and the release of the latch is served by no pass until another caller
  wins. Witness: `RerunLatch.LateStoreIsSwallowed`; exactly those stores are unserved: `RerunLatch.UnservedStores`.
- A clustering pass that loads its faces before a detach or purge and commits after it binds the excluded faces again
  (`Rebuild.StaleSnapshotRebinds`), and a cover pin whose face is detached between the pin's read and its UPDATE leaves an
  excluded face as a locked cover (`PersonRuns.StalePinRun`). These two are all that can go wrong in a run:
  `Rebuild.RebuildKeepsIffFresh`, `PersonEdits.PinWriteKeepsIff`, `PersonRuns.RunsStayGood`.
- Two trips in one ISO week share a moment id; the last draft wins, and a member that the earlier draft dropped comes back with
  a new join time. Witness: `Moments.SharedWeek`; exactly such members are stamped anew: `Moments.JoinTimes`.
- A short search page does not mean that the library is exhausted (the comments at service/search.go:191-193 and
  service/search.go:217-218 say so): the loop also stops when one wider window adds no live neighbour, or at the cap. Witnesses:
  `Search.BarrenWindowHidesTheRest`, `Search.CapHidesTheRest`; a page is whole exactly when no match of its slice lies beyond
  the last width: `Search.SearchIsWholeIff`.
- A removal event that is handled only after the asset has been restored to the same path deletes its row
  (`TrashRuns.LateRemovalDeletesTheRow`), a restore whose last UPDATE fails cannot be repeated
  (`TrashRuns.RetriedRestoreLosesTheFile`), a file that arrives at the path a restore has chosen is overwritten
  (`TrashRuns.ArrivalIsOverwritten`), and two restores of one asset at once leave a live row without a file
  (`TrashRuns.TwoRestoresLoseTheFile`). With one operation at a time on each asset, `TrashRuns.NothingIsLost` says exactly which
  runs lose nothing, and `TrashRuns.RemovalDeletesResidents` which removal events delete a row.
- Unplugging a drive that is mounted inside another takes its assets offline although the outer mount is still there. Witness:
  `MountGuard.NestedMountBreaks`; exact condition: `MountGuard.PollKeepsIffUncontested`. A failed UPDATE at startup is not
  repeated by the polls (`MountGuard.MissedStaysMissed`), unlike a failed one in a poll; the startup pass aligns the flags
  exactly when it misses no asset: `MountGuard.StartupAlignsIff`.

## Model

| member | source | states |
|---|---|---|
| `Articulation.ArticulationPoints` | cmd/cluster-analysis/analysis.go:34-117 | for every symmetric adjacency list the reported vertices are exactly the cut vertices (removing one disconnects two vertices that were connected), in ascending order, each with the size of the second-largest component its removal leaves |
| `Articulation.SplitSize` | cmd/cluster-analysis/analysis.go:85-114 | for a cut vertex the reported size is that of the second-largest remaining component |
| `Articulation.FlagCutVertices` | cmd/cluster-analysis/analysis.go:35-78 | the depth-first search over disc, low, visited, parent and isAP arrays flags a vertex iff it is a cut vertex |
| `DfsForest.FlagsAreCutVertices` | cmd/cluster-analysis/analysis.go:46-73 | the low-link theorem: in a finished search forest the flag rules (root with two children, non-root with a child that cannot climb above it) characterise the vertices whose removal separates others |
| `Articulation.CutLeavesTwo` | cmd/cluster-analysis/analysis.go:109-114 | removing a cut vertex leaves at least two components, so the fallback split size of 0 is never taken |
| `Splits.RemainingSizes` | cmd/cluster-analysis/analysis.go:86-108 | the breadth-first searches count each component of the graph without the vertex exactly once |
| `Splits.FloodFrom` | cmd/cluster-analysis/analysis.go:93-106 | one search from an unseen vertex marks exactly its component without the removed vertex, and counts it |
| `Splits.SecondEntry` | cmd/cluster-analysis/analysis.go:109-114 | the second entry of the sizes sorted downwards is the second-largest component |
| `Dbscan.BuildGraph` | cmd/cluster-analysis/analysis.go:13-29 | the induced graph holds exactly the pairs of different indices whose matrix entry is at most eps, and is symmetric when the matrix is |
| `Dbscan.RegionQuery` | service/faces.go:128-139 | the ascending list of exactly the other points within epsilon |
| `Dbscan.DBSCAN` | service/faces.go:147-198 | the queue loop, whose seeds repeat and grow while they are read, terminates and labels every point by the rank of its founder: the least index that reaches it through core points |
| `Dbscan.Cluster` | service/faces.go:147-198 | the loop itself, over whatever yields the neighbours of a point: vectors, precomputed lists, or a distance matrix with local indices |
| `Density.CorePointsByChains` | service/faces.go:147-198 | for a symmetric relation two core points share a label iff a chain of core points links them |
| `Density.BorderPoints` | service/faces.go:147-198 | a point that is not core is alone in its cluster or a neighbour of a core point of its cluster |
| `Density.OnePointClusters` | service/faces.go:147-198 | with minPoints = 1 the clusters are the connected components |
| `Density.IsolatedPoints` | service/faces.go:164-169 | with minPoints = 1 the one-point branch is taken exactly for the points without neighbours, and each of them is alone in its cluster |
| `Density.OnePointTakesTheBranch` | service/faces.go:164-169 | one point is an input that takes it |
| `Density.LabelsAreContiguous` | service/faces.go:147-198 | the labels used are exactly 0..k-1 |
| `Density.LabelsFollowFirstIndex` | service/faces.go:147-198 | clusters are numbered in the order of their smallest indices |
| `Density.SameLabelSameFounder` | service/faces.go:147-198 | labels agree, and are ordered, exactly as the founders are |
| `Dbscan.CoreByCount` | service/faces.go:161-172 | a point is core exactly when at least minPoints others are within epsilon of it |
| `Dbscan.VectorClusters` | service/faces.go:147-198 | what DBSCAN returns in terms of the vectors alone: two dense points share a label iff a chain of dense points, each within epsilon of the next, links them; any other point is alone or within epsilon of a dense point of its cluster |
| `Dbscan.ClusterLists` | service/faces.go:304-349 | the serial phase over precomputed lists satisfies the same labelling specification |
| `Dbscan.RegionQueryMatrix` | cmd/cluster-analysis/main.go:215-228 | the same list read from the matrix, over local indices: exactly the others whose entry is at most epsilon |
| `Dbscan.DbscanSubset` | cmd/cluster-analysis/main.go:205-264 | the matrix-backed variant satisfies the same labelling specification for the relation in its matrix |
| `Dbscan.BuildDistMatrix` | cmd/cluster-analysis/main.go:167-196 | filling the upper half row by row, in any order of the rows, and mirroring it leaves every pairwise distance in the matrix |
| `MatrixWorkers.WorkersOwnAllCells` | cmd/cluster-analysis/main.go:167-196 | for any number of workers every cell off the diagonal is written by one of them |
| `MatrixWorkers.AnyOrderFills` | cmd/cluster-analysis/main.go:167-196 | in every interleaving of the workers, down to the single write, the matrix holds every pairwise distance when the last write has been made, and there are as many writes as cells off the diagonal |
| `Dbscan.FullMatrixLists` | cmd/cluster-analysis/main.go:167-196 | clustering the full matrix reads the same neighbour lists as clustering the vectors |
| `Dbscan.LabelingUnique` | service/faces.go:147-198 | the specification leaves one label array per relation |
| `Dbscan.SubsetAgreesWithDBSCAN` | cmd/cluster-analysis/main.go:205-264 | over the full matrix `dbscanSubset` and `DBSCAN` return the same label array |
| `NeighborWorkers.SplitCovers` | service/faces.go:250-263 | the workers' row ranges cover all rows without overlap, for any number of workers |
| `NeighborWorkers.SplitIsEven` | service/faces.go:250-263 | at most as many workers start as there are, and none gets more than its share of the rows rounded up |
| `NeighborWorkers.ProgressDelivered` | service/faces.go:230-290 | in every schedule the reported counts strictly increase, at most 101 are delivered, n is delivered exactly once and last, and the trailing explicit call is never due |
| `NeighborWorkers.ProgressKeepsUp` | service/faces.go:230-248 | at every moment of every schedule the delivered counts are of rising percentages, and a count that no worker holds any more has been delivered or one of at least its percentage has |
| `NeighborWorkers.RowsComputed` | service/faces.go:250-278 | every finished run of the workers leaves the neighbour lists a serial pass would compute |
| `NeighborWorkers.WorkShrinks` | service/faces.go:250-278 | every step of every run uses up a unit of bounded work, so every schedule ends |
| `NeighborWorkers.NeverStuck` | service/faces.go:250-278 | a pool that is not finished always has a step to take |
| `NeighborWorkers.WithProgressAgreesWithDBSCAN` | service/faces.go:304-349 | for any schedule and worker count `DBSCANWithProgress` returns the label array of `DBSCAN` |
| `BurstGroups.UnionFind.Find` | service/moments_pick.go:342-348 | path halving terminates, keeps the parent array acyclic and returns the representative without changing any |
| `BurstGroups.UnionFind.Union` | service/moments_pick.go:350-355 | afterwards exactly the two classes share the second one's representative |
| `BurstGroups.GroupByCosine` | service/moments_pick.go:313-379 | the groups partition the cluster in order; two assets share a group iff a chain of above-threshold pairs links them, and assets without vectors are alone |
| `BurstGroups.LinkPairs` | service/moments_pick.go:357-364 | the double loop unites exactly along pairs above the threshold |
| `BurstGroups.CollectByRoot` | service/moments_pick.go:366-377 | one group per representative, in order of first appearance, holding its items in order |
| `BurstGroups.RootsAreChains` | service/moments_pick.go:357-364 | once every pair has been seen, representatives agree exactly along chains of similar pairs |
| `BurstGroups.GroupsAreDbscanClusters` | service/moments_pick.go:313-379 | for the same relation the groups are the clusters `DBSCAN` finds with minPoints = 1 |
| `BurstGroups.PairGrouped` | service/moments_pick.go:357-364 | two assets with vectors form one group exactly when their similarity is above 0.95 |
| `Partitions.LessIsStrictTotal` | cmd/cluster-analysis/main.go:470-480 | the sort key of the groups is a strict total order |
| `Partitions.PartitionSignature` | cmd/cluster-analysis/main.go:460-482 | the signature lists each block of equal labels once, ascending, in the order of the key, whatever order the map yields them in |
| `Partitions.SignatureOrder` | cmd/cluster-analysis/main.go:470-480 | smaller blocks come first, and of equally large ones the one with the smaller first index |
| `Partitions.SortedUnique` | cmd/cluster-analysis/main.go:470-480 | two sorted lists without repeats and with the same members are the same list |
| `Partitions.SignaturesDecidePartitions` | cmd/cluster-analysis/main.go:460-499 | two signatures are equal iff the label arrays group the same indices together |
| `Partitions.PartitionsEqual` | cmd/cluster-analysis/main.go:484-499 | the element-wise comparison decides equality of signatures |
| `BackfillGate.Gate.Enter` | service/backfillgate.go:47-87 | the mutex section of a trigger: whether it runs now, becomes the pending trigger, and arms the only timer |
| `BackfillGate.Gate.Complete` | service/backfillgate.go:95-111 | the mutex section after an execution: a pending trigger gets a timer unless one is armed |
| `BackfillGate.Gate.FirePending` | service/backfillgate.go:113-141 | the mutex section of a callback: takes the pending trigger and marks it running unless one is in flight |
| `BackfillGate.AtMostOneExecution` | service/backfillgate.go:47-141 | in every interleaving a chain has at most one execution in flight, and the flag says whether it has |
| `BackfillGate.PendingIsScheduled` | service/backfillgate.go:47-141 | a pending trigger always has exactly one live callback or a running execution, never both and never neither; without one there is no callback |
| `BackfillGate.CompletionReschedules` | service/backfillgate.go:95-111 | an execution that ends with a trigger pending arms exactly one callback for it |
| `BackfillGate.FiringRunsTheNewest` | service/backfillgate.go:113-141 | the two defensive exits after the nil-chain check are unreachable, and a trailing run executes the most recently submitted function |
| `BackfillGate.NoTriggerLost` | service/backfillgate.go:47-141 | a trigger is dropped only for a later one that has started or is still pending; a quiet chain has run its newest trigger |
| `BackfillGate.LeadingEdge` | service/backfillgate.go:67-87 | a trigger runs at once exactly when nothing runs, no callback is armed and the last start is at least the window ago; otherwise it becomes the pending one, and a callback it arms is due when the window ends |
| `BackfillGate.StartsAreSpaced` | service/backfillgate.go:67-79 | with a monotone clock successive starts are at least the window apart even when a function outlives the window, and always run newer triggers |
| `BackfillGate.TrailingRunIsPrompt` | service/backfillgate.go:95-111 | the trailing run is due at the end of the window, or when it was armed if that is later |
| `BackfillGate.TrailingRunIsDue` | service/backfillgate.go:95-111 | the callback a completion arms is due at the end of the window, or at once if that has passed |
| `RerunLatch.OnePassAtATime` | service/embedder.go:195-210 | in every interleaving at most one caller is in a pass, and nobody else is past the guard |
| `RerunLatch.StoreIsNotForgotten` | service/embedder.go:371-386 | once a losing caller's store has landed, the flag is up, or a pass that started later has run, or the holder is about to run one |
| `RerunLatch.PassesAreBounded` | service/embedder.go:597-612 | passes never exceed winning callers plus flag stores |
| `RerunLatch.LeftOverTriggers` | service/embedder.go:195-210 | when everybody has returned the flag is left up exactly when it was raised after the holder's last look, or a pass failed while it was up |
| `RerunLatch.TimelyStoresAreServed` | service/captionfeed.go:278-293 | as long as no pass fails, a store that landed before the holder's last look has been served by a later pass when the latch is released |
| `RerunLatch.UnservedStores` | service/embedder.go:195-210 | with the latch released and no pass failed, a store has been served by no later pass exactly when it landed after the last look and no caller has won since |
| `RerunLatch.LateStoreIsSwallowed` | service/embedder.go:195-210 | a run in which a store lands between the last look and the release, and no pass follows |
| `People.CoverIndex` | service/persons.go:1078-1109 | the first face with the best hybrid score when one is comparable, otherwise the first nearest to the centroid |
| `People.SelectCoverFace` | service/persons.go:1078-1109 | the two passes of the loop compute that choice |
| `People.HybridCoverScore` | service/persons.go:1118-1146 | the score lies in [0, 1], and is -1 exactly when the aesthetics, the dimensions or the box are missing or degenerate |
| `People.HybridScores` | service/persons.go:1131-1146 | a face that covers the share c of a picture whose aesthetic score is a of the way from 1 to 10 scores a times c times its quality |
| `People.HybridEnds` | service/persons.go:1135-1145 | beyond either end of the aesthetic scale and beyond the whole picture nothing more counts |
| `People.FaceQualityFactor` | service/persons.go:1165-1177 | the factor lies in [0, 1], and without a detector score a face keeps at least a quarter of its weight |
| `People.QualityFactors` | service/persons.go:1165-1177 | the quality is a product of one factor per signal, and a missing signal counts for nothing |
| `People.QualityOfOne` | service/persons.go:1148-1177 | the detector score counts as it is, the other two signals from a half to one, and a signal outside the unit interval as its nearer end |
| `PersonTables.PathsAgree` | service/faces.go:1128-1263 | from the contracts of the two recompute paths: they leave a person with the same cover and lock, and with the same row exactly when it has active faces or no hero to clear |
| `PersonTables.RecomputationsChoose` | service/faces.go:1254-1259 | the recomputation of one person, of all persons and after an unlock each give a person without a pin that holds the face that rule chooses |
| `People.CoverRuleOk` | service/persons.go:975-1069 | a cover that obeys the recompute rule is empty or one of the person's own active faces, shown by its own asset, and a locked cover is not empty |
| `People.CoverRuleDecides` | service/persons.go:975-1069 | the recompute rule (no cover without faces, a pin that still holds stays, otherwise the chosen face and a dropped pin) determines cover and lock |
| `People.KeptCover` | service/persons.go:1013-1061 | without an active face there is no cover and no lock; a pinned active face stays the locked cover |
| `People.ReselectedCover` | service/persons.go:1078-1109 | otherwise the cover is the first active face with the best hybrid score if any is comparable, else the first nearest to the centroid if one is nearer than 2, else the first, shown by its own asset |
| `PersonEdits.MergeKeeps` | service/search.go:727-762 | merging keeps every cover sound and every excluded face unbound |
| `PersonEdits.MergeEffect` | service/search.go:727-762 | every face of the one person now belongs to the other; no binding, face or third person is lost or changed; the other keeps its identity, but no hero without active faces, and its cover is recomputed |
| `PersonEdits.DetachKeeps` | service/persons.go:825-949 | so does detaching assets, including the removal of an emptied person |
| `PersonEdits.DetachEffect` | service/persons.go:847-901 | exactly the active faces of the person on the assets are counted, excluded and unbound; without any, nothing changes |
| `PersonEdits.DetachedPerson` | service/persons.go:903-944 | the person then goes exactly when no face is left to it and it has no name, relation, favourite or hidden mark; otherwise it keeps those, loses a hero on the assets and every hero with its last face, and its cover is recomputed |
| `PersonEdits.DetachSpares` | service/persons.go:825-949 | no other person changes |
| `PersonEdits.PurgeKeeps` | service/persons.go:407-425 | so does purging a person |
| `PersonEdits.PurgeEffect` | service/persons.go:407-425 | exactly the faces of the person become excluded and unbound, and only its row goes |
| `PersonEdits.PinnedFace` | service/persons.go:257-300 | a pin chooses the largest active face of that person on that asset, and fails exactly when there is none |
| `PersonEdits.PinnedFaceIsFirst` | service/persons.go:299-306 | of equally large faces the first is pinned |
| `PersonEdits.PinWriteKeepsIff` | service/persons.go:308-318 | the pin's UPDATE, which checks no face, keeps the tables sound exactly when the person is gone or the face is still one of its active faces on the asset |
| `PersonEdits.PinEffect` | service/persons.go:308-318 | the face becomes the locked cover, shown by the asset, and nothing else changes |
| `PersonEdits.UnlockKeeps` | service/persons.go:326-362 | unlocking keeps every cover sound |
| `PersonEdits.UnlockReselects` | service/persons.go:326-362 | an unlocked person has no pin; its cover is empty exactly without active faces and otherwise the active face that scores and distances choose, shown by its asset; nothing else changes |
| `Rebuild.RebuildKeepsIffFresh` | service/faces.go:940-1121 | a committed rebuild keeps the tables sound exactly when none of the faces it had loaded has been excluded meanwhile |
| `Rebuild.AnchorsSurvive` | service/faces.go:952-1039 | every anchored person keeps its identity and all its members, and its pinned cover |
| `Rebuild.RebuildSurvivors` | service/faces.go:952-1039 | a person survives exactly when it has a name, a relation, a hero, a pinned cover, or a favourite or hidden mark, and keeps its faces and identity; of the other faces exactly the loaded ones are bound |
| `Rebuild.RebuildSnaps` | service/faces.go:1055-1081 | a loaded face of nobody who survives, within 0.55 of a survivor with active faces, goes to a nearest such survivor |
| `Rebuild.RebuildGroups` | service/faces.go:1083-1107 | any other such face goes to a new person without marks, which two of them share exactly when they have the same label |
| `Rebuild.StaleSnapshotRebinds` | service/faces.go:940-1121 | one stale face that comes back bound although it is excluded |
| `PersonTables.Tables.RebuildPersons` | service/faces.go:940-1121 | the transaction binds exactly the loaded and the anchored faces, each to one person: members of anchors stay, a face within the radius goes to an anchor at minimal distance, two others share a new person iff they share a label, no new person is empty; it fails exactly when a face to insert is gone, and then changes nothing |
| `PersonTables.LoadAnchors` | service/faces.go:952-1027 | every anchored person once, with its active faces |
| `PersonTables.Tables.SnapFaces` | service/faces.go:1055-1081 | binds each loaded face near an anchor to a nearest one and lists the others in order; fails exactly when a face to bind has lost its row |
| `PersonTables.Tables.GroupRest` | service/faces.go:1083-1107 | gives the listed faces one new person per label; fails exactly when a listed face has lost its row |
| `PersonTables.Tables.RecomputePersonStats` | service/faces.go:1128-1263 | recomputes every person over the final bindings by the recompute rule, each by the lock and cover loaded before the loop, and touches nobody's identity |
| `PersonTables.Tables.StatsTurn` | service/faces.go:1168-1261 | one turn: the row of that person obeys the recompute rule for the tables as they are, and no other row changes |
| `PersonTables.Tables.LoadMetas` | service/faces.go:1129-1152 | every person once, with the lock and cover of its row |
| `PersonTables.NearestAnchor` | service/faces.go:1059-1077 | the scan returns an anchor at minimal distance within the assign radius, or nothing exactly when none is |
| `PersonTables.Tables.RecomputeOneCentroid` | service/persons.go:975-1069 | the statements for one person leave exactly the recomputed row and touch no other |
| `PersonTables.Tables.MergePersons` | service/search.go:727-762 | refused exactly for equal or unknown persons, otherwise the merged tables |
| `PersonTables.Tables.DetachAssetsFromPerson` | service/persons.go:825-949 | the number of faces taken away and the resulting tables, unchanged when there are none; 0 for an empty list of assets, even for an unknown person |
| `PersonTables.Tables.PurgePerson` | service/persons.go:374-425 | excludes and unbinds all faces of a known person and deletes it |
| `PersonTables.Tables.UnlockPersonCover` | service/persons.go:326-362 | drops the lock of a known person and recomputes it |
| `PersonTables.Tables.SetPersonCover` | service/persons.go:257-320 | with nothing between its two statements: pins the largest face of the asset, or changes nothing when there is none or no such person |
| `PersonTables.Tables.ReadPin` | service/persons.go:257-306 | the first statement: the loop picks the first largest of the person's active faces on the asset |
| `PersonTables.Tables.WritePin` | service/persons.go:308-318 | the second statement: sets cover and lock of a person that exists, whatever has become of the face |
| `PersonRuns.RunsStayGood` | service/faces.go:940-1121 | over any sequence of loads, rebuild commits, merges, detaches, purges, pin reads, pin writes, unlocks, identity edits and new faces: each face has at most one person, excluded faces are bound to nobody and all covers are sound throughout, exactly when no rebuild commits after one of its loaded faces was excluded and no pin is written after its face has left a person that still exists |
| `PersonRuns.DetachOvertakesPin` | service/persons.go:257-320 | whenever a person outlives the detaching of an asset, a pin that had chosen a face on it leaves an excluded cover |
| `PersonRuns.StalePinRun` | service/persons.go:257-320 | a run of read, detach and write, without any clustering, that ends with an excluded face as a locked cover |
| `Moments.DiffAgreesWithWholesale` | service/momentstore.go:525-604 | the in-place member diff has exactly the members of wholesale replacement followed by edit replay, with the same scores for drafted members, unchanged join times for members that were there and unchanged rows for pin-only members |
| `Moments.SyncMembership` | service/momentstore.go:497-642 | after a sync each drafted moment has the members (draft minus excludes) plus live pins of its last draft, asset by asset |
| `Moments.SyncRow` | service/momentstore.go:505-538 | the row of a drafted moment: recipe and title of its last draft, but a title given by the language model stays; without edits the window, cover and count of the draft, with edits the count of the members; a new moment is not hidden, ordered or named by the language model |
| `Moments.SyncScores` | service/momentstore.go:540-561 | a drafted member has the featured mark, score and manual mark of its last entry in the last draft |
| `Moments.SyncedRows` | service/momentstore.go:540-604 | a member that only a pin keeps has its old row, or, if new, a plain row marked as manual and stamped now |
| `Moments.SyncSurvivors` | service/momentstore.go:619-636 | the moments left are the drafted ones and those of other recipes; edits, hidden flag, sort order and a title given by the language model are unchanged, and undrafted moments are untouched |
| `Moments.JoinTimes` | service/momentstore.go:525-561 | a member keeps its join time exactly when no draft of its moment in this sync dropped it; otherwise it is stamped anew |
| `Moments.SharedIdRestamps` | service/momentstore.go:525-561 | of two drafts of one moment, a member that the first leaves out and the second names has joined at the time of the sync |
| `Moments.SharedWeek` | service/momentstore.go:497-642 | a week with two trips in which a member of both before and after loses its join time |
| `Moments.JoinTimesKept` | service/momentstore.go:525-561 | with one draft per moment every asset that was and stays a member keeps its join time |
| `Moments.SyncTwice` | service/momentstore.go:497-642 | syncing the same drafts again changes neither the moments nor their members |
| `MomentRuns.EditMembers` | service/momentstore.go:809-916 | pinning adds the live assets, excluding removes the known ones, unknown ids do nothing, no staying member is downgraded, the last edit is in force |
| `MomentRuns.EditedAssets` | service/momentstore.go:809-916 | the same, asset by asset, with the plain manual row of an added member |
| `MomentRuns.EditedRow` | service/momentstore.go:809-916 | the row changes only when the members do, and then in count, cover and window only |
| `MomentRuns.RunsStayConsistent` | service/momentstore.go:1166-1237 | over any run of syncs, edits, renames, hides and reorders, with drafts right about their own members, the stored count is the number of members, the cover is empty or a member, and no excluded asset is a member |
| `MomentRuns.ExcludedStaysOut` | service/momentstore.go:809-916 | while its moment survives, an excluded asset stays out until it is pinned again |
| `MomentTables.MomentStore.SyncRecipeMoments` | service/momentstore.go:497-642 | the statements of the transaction carry out such a sync; it fails exactly on a drafted asset that does not exist, and then changes nothing |
| `MomentTables.MomentStore.SyncDraft` | service/momentstore.go:505-616 | the statements for one draft: row, members, deletion of stale members, replay, refresh |
| `MomentTables.MomentStore.UpsertMembers` | service/momentstore.go:540-561 | the member upserts in draft order, failing on an asset that does not exist |
| `MomentTables.MomentStore.DeleteStale` | service/momentstore.go:563-589 | deletes the members that are neither drafted nor live pins |
| `MomentTables.MomentStore.ApplyMomentEdits` | service/momentstore.go:1125-1153 | removes excluded members, adds absent live pins, and says whether there are edits |
| `MomentTables.MomentStore.ApplyMomentEditOp` | service/momentstore.go:809-916 | the per-asset statements carry out such an edit, refresh only when a member row changed, and return the stored count |
| `MomentTables.MomentStore.RefreshDerived` | service/momentstore.go:1166-1237 | the count, the time window of a moment that had one, and the cover: kept while a member, else the best featured member, else the best member, ties to the smaller id |
| `Moments.RefreshedRow` | service/momentstore.go:1155-1237 | count, cover and window in terms of the members: a cover that is a member stays; a new one is featured if any member is, has the best score of its kind and of those the smallest id; the window of a moment that has one holds every time taken and is as tight as it can be |
| `MomentTables.MomentStore.HideMoment` | service/momentstore.go:922-928 | sets the hidden flag of that moment and nothing else |
| `MomentTables.MomentStore.SetMomentTitle` | service/momentstore.go:1242-1249 | sets the title and marks it as given by the language model, and nothing else |
| `MomentTables.MomentStore.ReorderMoments` | service/momentstore.go:1260-1276 | ten times the last position for listed moments, nothing else changes, unknown ids are skipped |
| `SearchCut.SemanticCutIndex` | service/searchcut.go:49-97 | fewer than three scores are never cut; a drop of at least 0.10 and twice the mean drop decides, at its first widest place; otherwise the first score below the fraction of the top; at least one score is kept |
| `SearchCut.CutIsUnique` | service/searchcut.go:49-97 | that rule determines the cut |
| `SearchCut.CliffIff` | service/searchcut.go:57-80 | there is a cliff exactly when some drop is at least 0.10 and at least twice the mean drop; the cut then falls behind the first of the widest drops |
| `SearchCut.CutSeparates` | service/searchcut.go:24-48 | on descending scores no folded score beats a kept one; across a cliff they are at least 0.10 apart, without one the folded scores are exactly those below the fraction |
| `SearchCut.ApplyCutTiering` | service/searchcut.go:110-124 | the flags set in place are those of the scored semantic hits from the cut on |
| `SearchCut.FoldedIsSuffix` | service/searchcut.go:99-124 | the folded tier is a suffix of the semantic hits and no better than what stays |
| `SearchCut.SomethingStays` | service/searchcut.go:46-48 | in front of a folded hit an unfolded semantic hit is left |
| `Search.KnnSemanticFetch` | service/search.go:318-382 | the k nearest through the structural filters and through the similarity floor |
| `Search.FetchIsPrefix` | service/search.go:318-382 | whatever k is, the fetch yields a prefix of the fully filtered ranking |
| `Search.Widen` | service/search.go:183-213 | the widening loop terminates with k at most 2000, in the first round that has enough, reaches the cap or adds no live neighbour |
| `Search.FewRounds` | service/search.go:183-213 | the loop makes at most eight fetches |
| `Search.PageIsPrefix` | service/search.go:216-228 | the semantic page is a prefix of the slice [offset, offset+limit) of the filtered ranking, and the whole slice, with limit entries, when the fetch has enough |
| `Search.PageEntry` | service/search.go:216-228 | the i-th entry of a page at an offset is the hit of a live neighbour that reaches the similarity floor and has exactly offset + i such neighbours in front of it |
| `Search.PageIsWholeIff` | service/search.go:216-228 | for any k the page is the whole slice exactly when no live and similar neighbour at position k or later has a rank within the slice |
| `Search.StopsIff` | service/search.go:196-213 | the exits of the widening loop in terms of the ranking: enough matches within the width, the cap, or a last window without a live neighbour |
| `Search.SearchIsWholeIff` | service/search.go:183-228 | the page of a search is the whole slice exactly when no match of the slice lies beyond the last width; when one does, the loop stopped at the cap or after a barren window |
| `Search.WholePageWithoutBarrenWindow` | service/search.go:183-228 | a search that ends neither at the cap (unless that covers the ranking) nor after a last window without a live neighbour (unless nothing was left to widen into) returns the whole slice |
| `Search.BarrenWindowHidesTheRest` | service/search.go:189-218 | a ranking in which 33 dead neighbours hide the live match behind them |
| `Search.CapHidesTheRest` | service/search.go:183-228 | a page behind the cap of 2000 that has one entry instead of two |
| `Search.PagesAreDisjoint` | service/search.go:216-228 | pages at offsets that do not overlap share no asset, however far each search widened |
| `Search.MergeOCRFirst` | service/search.go:495-506 | the first hit of every id, in order |
| `Search.MergeSplits` | service/search.go:495-506 | the merge is the OCR hits followed by the semantic hits that OCR did not find, in their order |
| `Search.MergeLosesNothing` | service/search.go:488-506 | no id of either list is lost or doubled |
| `Search.FirstPageIsSound` | service/search.go:230-257 | end to end: the first page holds every OCR hit and every semantic hit of the slice once, folds no OCR hit, and folds the worse end of the semantic hits leaving at least one in front |
| `Search.SmartSearch` | service/search.go:171-273 | the search returns the page of the last widening round, merged and folded on the first page, all folded on deeper ones; a negative offset counts as 0 |
| `Search.DeepPage` | service/search.go:258-267 | a page behind the first: the same, entry by entry, all folded |
| `Search.DeepPageIsWholeIff` | service/search.go:183-228 | it has as many entries as its slice exactly when no match of the slice lies beyond the last width, and else the loop stopped at the cap or after a barren window |
| `Trash.DedupePath` | service/trash.go:268-278 | the loop terminates and returns the first candidate name that is free, which is the least numbered name that is free |
| `Trash.FreshNameIs` | service/trash.go:266-278 | letter by letter: the base, then " (restored)" or " (restored n)" with n at least 2 in decimal digits, then the extension, in the same directory, for the least n whose name is free |
| `Trash.WrittenOnce` | service/trash.go:276 | the decimal numeral of n is the one digit string without leading zeros whose value is n |
| `Trash.CandidatesDiffer` | service/trash.go:268-278 | the candidate names are pairwise different (decimal numerals are injective) |
| `Trash.FreshNameShape` | service/trash.go:266-278 | a fresh name keeps directory and extension and differs from the original |
| `TrashRuns.NothingIsLost` | service/trash.go:124-150 | in every interleaving of trash and restore steps over any number of assets with removal events and new files, and with any move, rollback or update failing: each asset keeps its row and its bytes at every moment, at a place of its own with no removal event pending for it, exactly when every step is safe (rollbacks and final updates work, and no restore moves onto, or leaves something else at, a path with a pending removal event or another asset's place) |
| `TrashRuns.StepKeepsIffSafe` | service/trash.go:124-150 | each step keeps every row and every byte in its place exactly when it is safe |
| `TrashRuns.MoveBackIff` | service/trash.go:240-264 | the move of a restore does so exactly when, if it works, its target has no pending removal event and is no other asset's place, and if it fails, it leaves other assets' bytes there as they were |
| `TrashRuns.EndTrashIff` | service/trash.go:139-148 | the end of a trash does so exactly when the move works or the rollback does |
| `TrashRuns.RemovalDeletesResidents` | service/indexer.go:1729-1751 | with removal events pending for any path, one deletes exactly the rows of the live assets whose files are at its path, files that are still there |
| `TrashRuns.HandleKeeps` | service/indexer.go:1729-1751 | while no removal event is pending for a place in use, handling one deletes no row and loses nothing |
| `TrashRuns.StrangersKeepTheirFiles` | service/trash.go:159-175 | a file that belongs to no asset and lies outside the trash changes exactly when the move of a restore that had chosen its path lands on it or leaves something else there |
| `TrashRuns.ArrivalIsOverwritten` | service/trash.go:240-264 | a file that arrives between the choice of the target and the move is lost, although every asset keeps its row and bytes |
| `TrashRuns.FailedTrashChangesNothing` | service/trash.go:139-148 | what a failed move leaves: the row as before if the rollback works and flipped otherwise, and all files but those in the asset's trash directory; nothing has changed exactly when the rollback works and that directory was empty |
| `TrashRuns.FailedRestoreLeaves` | service/trash.go:159-175 | what a failed restore leaves: row and bytes in the trash, every path but the target as before, and at the target what was there, nothing, a partial copy, or a second copy of the asset |
| `TrashRuns.RestoreAfterLeftover` | service/trash.go:240-264 | after a failed removal of the source the next restore goes beside the copy, so the asset ends with two |
| `TrashRuns.RoundTrip` | service/trash.go:240-264 | trash then restore to a free original path gives back the row and every file as they were |
| `TrashRuns.RoundTripBeside` | service/trash.go:240-264 | with the original path taken the asset comes back at a fresh path beside it, and the newcomer and all other files stay |
| `TrashRuns.LateRemovalDeletesTheRow` | service/indexer.go:1729-1751 | a removal event handled after the restore deletes the live row |
| `TrashRuns.RetriedRestoreLosesTheFile` | service/trash.go:240-264 | after a failed last update the retry leaves a live row at a path without a file |
| `TrashRuns.TwoRestoresLoseTheFile` | service/trash.go:204-264 | two restores of one asset at once: the second finds the path taken, moves a file that is gone and updates last, so the row is live at a path without a file |
| `TrashService.Service.TrashAsset` | service/trash.go:94-150 | not found exactly for an asset that is unknown or already in the trash; otherwise its own trash, and after a successful one that of its Live Photo video if that is still live, whose failure is not reported |
| `TrashService.Service.MoveToTrash` | service/trash.go:124-150 | the statements of one trash, with every way they can fail, in terms of the steps above; done exactly when directory, UPDATE and move work |
| `TrashService.TrashedMeans` | service/trash.go:124-150 | a trash that works: the row points to .trash/<id>/ on the volume under the old file name and remembers the old path; the bytes are there and gone from the old place; nothing else changes |
| `TrashService.TrashFailedMeans` | service/trash.go:124-150 | a trash that fails leaves the row as it was, unless flipping it back failed too, and removes files from the own trash directory at most |
| `TrashService.Service.RestoreAsset` | service/trash.go:204-264 | not found exactly for an asset that is not in the trash; otherwise its own restore, and after a successful one that of its Live Photo video if that is in the trash, whose failure is not reported |
| `TrashService.Service.RestoreFile` | service/trash.go:240-264 | the statements of one restore, with every way they can fail, in terms of the steps above; an asset without an original path is only unflagged |
| `TrashService.RestoredMeans` | service/trash.go:240-264 | a restore that works: the row is live at the old path, or at the least numbered free name beside it, the bytes are there and gone from the trash, and nothing else changes |
| `TrashService.RestoreFailedMeans` | service/trash.go:240-264 | a restore that fails changes no row; if only its last UPDATE failed, the file has moved all the same |
| `TrashService.UnflaggedMeans` | service/trash.go:240-244 | an asset without a remembered path is only unflagged |
| `TrashService.Service.RenameOrCopy` | service/trash.go:159-175 | a rename or a copy followed by removal moves the bytes; what each failure leaves behind |
| `TrashService.Service.RemoveByPath` | service/indexer.go:1729-1751 | deletes exactly the live row at the path, never a trashed one, and no file |
| `MountGuard.PollKeepsIffUncontested` | service/mountguard.go:219-251 | whatever updates fail, a poll keeps "online iff under a mount of the snapshot" exactly when no asset lies both under a mount just marked offline and under one still listed |
| `MountGuard.NonNestedUncontested` | service/mountguard.go:219-251 | mounts that are not nested contest nothing |
| `MountGuard.RunsStayAligned` | service/mountguard.go:121-251 | after a successful alignment and any number of polls with any update failing at any poll, a non-devmon /media asset is online iff its path lies under a mount of the saved snapshot |
| `MountGuard.CleanPollCatchesUp` | service/mountguard.go:219-251 | one poll without failures makes the snapshot the mount table and every flag right for it |
| `MountGuard.FailedTransitionsStayPending` | service/mountguard.go:214-218 | a transition whose update failed is still pending against the new snapshot |
| `MountGuard.NestedMountBreaks` | service/mountguard.go:219-251 | unplugging a drive mounted inside another breaks the alignment |
| `MountGuard.UnderIsIn` | service/mountguard.go:313-342 | a path lies under a mount exactly when it continues the mount point, stripped of trailing slashes, with a slash |
| `MountGuard.SiblingsApart` | service/mountguard.go:313-342 | mount points of which one continues the name of the other have no path in common |
| `MountGuard.UnplugSparesSibling` | service/mountguard.go:219-251 | a run in which /media/usb is unplugged and the asset on /media/usb2 stays online |
| `MountGuard.PolledAsset` | service/mountguard.go:219-251 | asset by asset: online in a mount that came back, else offline in one that is gone, else as before; failed updates count for neither |
| `MountGuard.StartedAsset` | service/mountguard.go:172-212 | asset by asset: online in a mount whose update works; offline under /media, outside devmon and every mount, if that update works; else as before |
| `MountGuard.Guard.Start` | service/mountguard.go:121-128 | the alignment and the first snapshot share one reading of the mount table |
| `MountGuard.Guard.AlignWith` | service/mountguard.go:172-212 | with any of its updates failing, the loop over the mounts and the update for the rest of /media leave exactly the flags of the startup pass |
| `MountGuard.StartupAlignsIff` | service/mountguard.go:172-212 | the startup pass aligns the flags with the mounts read exactly when it misses no asset, that is none whose flag was wrong and whose update failed; it misses none when every update works |
| `MountGuard.MissedStaysMissed` | service/mountguard.go:219-251 | while the mount table stays as it was at startup, a poll changes no flag, so what startup missed stays missed |
| `MountGuard.Guard.Mark` | service/mountguard.go:313-342 | one update sets the flag of exactly the assets under the mount, or fails and changes nothing |
| `MountGuard.FlaggedAsset` | service/mountguard.go:313-342 | one update sets the flag of exactly the assets whose path continues the stripped mount point with a slash |
| `MountGuard.Guard.CheckOnce` | service/mountguard.go:219-251 | the two loops over the transitions compute that poll, and recovery starts exactly for the mounts back online that are not being recovered |
| `MountGuard.ToMountSet` | service/mountguard.go:350-359 | exactly the mounts that are not excluded |
| `MountGuard.ExcludedMounts` | service/scanroots.go:88-146 | a mount is excluded exactly when it is one of four system mounts, belongs to devmon or has a component .snapshots |

## Left out

- HTTP routes, authentication, uploads, message bus, thumbnails, EXIF, machine-learning and language-model calls: I/O around libraries that are not part of this model.
- Floating point: distances and scores are reals, so the float32 rounding of the distance matrix and the clamping of cosine distances are not modelled; the distance is any symmetric function.
- `Dbscan.BuildDistMatrix`: the method fills whole rows one after another in any order; the interleaving of the workers is `MatrixWorkers.AnyOrderFills`, where the distance is computed in the write.
- `Rebuild.RebuildKeepsIffFresh`: the labels are those of any clustering of the loaded faces; centroids, confidences and timestamps of persons are not stored.
- `PersonRuns.RunsStayGood`: deleting assets or re-detecting faces of an asset, which cascades away face rows and can leave covers dangling until the dangling-cover sweep, and the sweeps that delete empty or automatic persons are not steps of the runs; one clustering pass is under way at a time, pins in any number.
- `MomentRuns.RunsStayConsistent`: deleting an asset, which cascades away member rows without refreshing the count, is not a step of the runs; updated_at, place and subtitle are not stored.
- `Moments.DiffAgreesWithWholesale`: pinned rows that the diff exempts keep their old featured and score values, so agreement with wholesale replacement is on membership there and not on those two columns.
- `Search.SmartSearch`: the ranking and the OCR hits are fixed during one search; attaching names and places to the page is left out.
- `TrashRuns.NothingIsLost`: one operation at a time on an asset, as two can lose a file (`TrashRuns.TwoRestoresLoseTheFile`); the lookup and the UPDATE that begin a trash are one step; a Live Photo video is a second asset whose operation starts when the first has ended; permanent purging and its file removal are left out.
- `MountGuard.RunsStayAligned`: starts from a startup pass that missed nothing; files are indexed only below a mount of the snapshot; a file indexed on a drive that was plugged in since the last poll is aligned by the next one.
- `TrashService.Service.TrashAsset`: the SELECT that looks the asset up does not fail, here and in a restore; the caption hand-off is left out.
- `BackfillGate.StartsAreSpaced`: the clock is monotone and a callback never fires before its time.
- Time-window clustering and best-shot picking beside the burst groups, smart views, albums, favourites, storage statistics, title cleaning and the benchmark scripts: easier members that add little to the cores above.
