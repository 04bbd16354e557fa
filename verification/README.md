# R-tree and serializer: a verified model

This project models two pieces of BRL-CAD and proves what they promise.

**The R-tree of `include/RTree.h`**, a spatial index that keeps boxes with ids in a balanced tree of
nodes. The simple thing it stands for is a multiset of (box, id) entries. The model has two layers.

* *Values* (`Trees`, `Partitions`, `Inserts`, `Splits`, `Drifts`, `Removes`, `Descents`, `Queries`, `Joins`,
  `JoinCounts`, `Iterations`, `Storage`, `Runs`): every algorithm of the header as a function on tree values,
  branch by branch, with the lemmas that say what it achieves: entries kept, boxes tight, fill bounds,
  pruning sound, runs refining the multiset.
* *Memory* (`Nodes`, `Splitting`, `Insertion`, `Removal`, `Readers`, `Copying`, `FileStreams`, `Iterators`,
  `RTree`): classes and loops that update nodes, partition arrays, the re-insertion list, streams and the
  iterator stack in place. Each method is proved to do to the nodes exactly what the function does to the
  value, and to account for every node: a ledger of live nodes shows that nothing leaks and nothing is
  freed twice.

**The `Serializer` and `Deserializer` of `include/brep/util.h`** (`Encodings`, `Serializers`), a growable
byte buffer with typed writes and a cursor with typed reads: the round trip for any script, and the
amortised cost of growth.

The template parameters are constants without a value, so everything holds for each of their settings:
`MIN` and `MAX` with `2 <= MIN` and `2 * MIN <= MAX + 1` (what the runtime assertions of `ChoosePartition`
and the single root collapse need; the default `MAX / 2` meets it from `MAX = 4` on), any dimension above
one, either volume formula, either byte order of the host. Coordinates and volumes are exact reals.

## What was found

* `Remove` compares ids only once it is in a leaf, so it may take an entry the query does not touch
  (`Runs.RemovalNeedNotOverlap`; `Runs.LeafRemovalIgnoresBoxes` for a tree of one leaf). What it takes in
  general is the first entry with the id in the leaves whose cover the query overlaps
  (`Descents.RemovalByLeaves`), so what it takes overlaps the query if and only if that entry does
  (`Runs.RemovedOverlapsIff`).
* One `if` suffices to collapse the root after a removal; the `while` that the comment at
  `include/RTree.h:1481` wonders about is not needed (`Removes.RemoveRect` returns a well-formed tree).
* `Load` from a stream drops the children the root already has without freeing them: afterwards all live
  nodes are reachable if and only if the tree was a single leaf (`RTrees.RTree.LoadStream`, with a tree that
  loses nodes in `RTrees.LoadLosesNodes`). `Load` by name clears the tree first and is not affected.
* The count returned by `Overlaps` can exceed the number of overlapping pairs (`JoinCounts.CountCanExceed`, for
  every `MIN` and `MAX`). It equals that number if and only if nothing is joined twice: wherever a child meets
  a leaf, no data below the child overlaps the leaf or the child's box touches exactly one slot of it
  (`JoinCounts.CountIsExactIffOnce`, for trees of any two heights). Trees of equal height always meet that.
* Ties in `PickBranch` can drift by one tolerance per branch (`Inserts.PickNearLeast`). In every dimension and for
  either volume there are boxes where the pick is more than a tolerance worse than the first branch
  (`Drifts.PickCanDrift`). The pick has the least enlargement, or is the cheapest in both respects, if and
  only if no branch behind the last such one passes the guard of the tie branch (`Inserts.PickIsLeastIff`,
  `Inserts.PickIsCheapestIff`). In `ChoosePartition` ties cannot drift (`Partitions.ChoiceNearStrongest`), and
  which branch they select is determined (`Partitions.ChoiceWithTies`).

## Model

| member | source | states |
|---|---|---|
| Rects.CombineRect | include/RTree.h:1159-1171 | the loop computes the join of two boxes |
| Rects.CombineIsJoin | include/RTree.h:1159-1171 | the combination is the least box containing both, and proper if either is |
| Rects.Overlap | include/RTree.h:1538-1549 | true exactly when the closed boxes meet in every dimension |
| Rects.OverlapIsCommonPoint | include/RTree.h:1538-1549 | two proper boxes overlap if and only if they have a point in common |
| Rects.ContainsIsInclusion | include/RTree.h:1159-1171 | containment of boxes is inclusion of the points inside them |
| Rects.ProperHasPoints | include/RTree.h:559-563 | a box has points inside if and only if no minimum exceeds its maximum |
| Rects.InsidePoint | include/RTree.h:1542-1547 | every dimension counts: a point box has no other point inside |
| Rects.OverlapMonotone | include/RTree.h:1592-1599 | whoever overlaps a box overlaps every box around it, which is what pruning rests on |
| Rects.CoverIsLeast | include/RTree.h:1067-1077 | the cover of a list of boxes is the least box around all of them |
| Rects.CoverUnique | include/RTree.h:1067-1077 | the least box around the boxes is unique, so the order of combination does not matter |
| Rects.RectVolume | include/RTree.h:1209-1222 | the loop multiplies the extents |
| Rects.RectSphericalVolume | include/RTree.h:1227-1248 | the loop sums the squared half extents and the result is the volume of that radius |
| Rects.CalcRectVolume | include/RTree.h:1253-1260 | whichever formula the macro selects |
| Rects.BoxVolumeStretches | include/RTree.h:1209-1222 | box volume is 1 on the unit box and proportional to each extent |
| Rects.SphereVolumeStretches | include/RTree.h:1227-1248 | the sphere depends on a sum that is 0 for a point and changes with one extent by the difference of the squared halves |
| Rects.VolumeMonotone | include/RTree.h:1209-1260 | either volume is non-negative on proper boxes and never shrinks when a box grows |
| Rects.SpheresAreRadial | include/RTree.h:1238-1247 | the power of a square root times a constant is a monotone function of the sum of squares, in every dimension; in two dimensions the root squares away |
| Trees.ItemsCover | include/RTree.h:1067-1077 | in a well-formed node the cover is the least box around all data below, at any depth |
| Trees.BoxesAreTight | include/RTree.h:993-1005 | in a well-formed tree every box at every depth is the least one around the data below it |
| Trees.HeightIsLogarithmic | include/RTree.h:1483-1489 | a tree with root level H >= 1 holds at least 2 * MIN^H entries |
| Trees.HeightFitsIteratorStack | include/RTree.h:169 | fewer than 2^31 entries keep the root below level 30, so 32 stack slots are enough |
| Nodes.NodeCover | include/RTree.h:1067-1077 | the loop over a node computes the cover of its value |
| Nodes.Memory.AllocNode | include/RTree.h:897-907 | a new node enters the ledger, with count 0 and level -1 |
| Nodes.Memory.FreeNode | include/RTree.h:911-920 | only a live node can be freed, and then it is not live |
| Partitions.WasteExceedsStart | include/RTree.h:1409-1420 | over exact reals the waste of every pair exceeds the starting value |
| Partitions.SeedsAreWorstPair | include/RTree.h:1399-1424 | the seeds are two different branches, no pair wastes more, and every earlier pair wastes less |
| Partitions.ClassifySound | include/RTree.h:1429-1447 | counters and colours stay in step and one branch less is untaken |
| Partitions.ClassifyTight | include/RTree.h:1436-1441 | the cover of each group stays the least box around its members |
| Partitions.ChoiceNearStrongest | include/RTree.h:1310-1340 | the chosen branch goes to the group that grows less, and its preference is within one tolerance of the largest |
| Partitions.ChoiceIsStrongest | include/RTree.h:1314-1338 | without near-ties the choice is the first of the strongest preference, the smaller group deciding ties |
| Partitions.ChoiceWithTies | include/RTree.h:1314-1338 | which branch is chosen, ties included: the first of the strongest, or the first behind it that is near it and prefers the smaller group |
| Partitions.SomeUntaken | include/RTree.h:1310-1315 | whenever the counters fall short an untaken branch is chosen, never a stale index |
| Partitions.Rounds | include/RTree.h:1310-1340 | the main loop ends, one branch fewer untaken per round, with its guard false |
| Partitions.RoundsKeepRoom | include/RTree.h:1310-1312 | no group is pushed past the point where the other can still reach the minimum |
| Partitions.FillRest | include/RTree.h:1342-1354 | the leftover goes to one group, the other keeps its count, nothing stays untaken |
| Partitions.PartitionIsBalanced | include/RTree.h:1300-1359 | all branches are coloured and both groups hold between the minimum and the total less the minimum |
| Partitions.CoversAreTight | include/RTree.h:1429-1447 | at the end each group is covered by the least box around its members |
| Partitions.PartitionFromAnyCover | include/RTree.h:1436-1441 | what the cover arrays held before a split has no influence on it |
| Inserts.PickNearLeast | include/RTree.h:1125-1154 | the enlargement of the pick is at most the least one plus (count - 1) tolerances |
| Inserts.PickIsCheapest | include/RTree.h:1120-1154 | without near-ties the pick is the first of the least enlargement, the smaller box deciding ties |
| Inserts.PickIsLeastIff | include/RTree.h:1137-1152 | the pick has the least enlargement if and only if no branch behind the last of the least passes the guard of the tie branch against it |
| Inserts.PickIsCheapestIff | include/RTree.h:1137-1152 | the pick is one of the cheapest, growth first and then size, if and only if no branch behind the last of them passes that guard |
| Inserts.PickBranchNearLeast | include/RTree.h:1125-1154 | in volumes of the boxes: the picked branch grows at most by the least growth of any branch plus (count - 1) tolerances |
| Inserts.PickBranchIsCheapest | include/RTree.h:1120-1154 | in volumes: when growths are equal or a tolerance apart, the pick is the first of least growth and, among those, of least volume |
| Inserts.PickBranchIsLeastIff | include/RTree.h:1137-1152 | in volumes: the pick has the least growth if and only if no branch behind the last of the least is within the tolerance of it and smaller than the pick up to there |
| Inserts.PickBranchIsCheapestIff | include/RTree.h:1137-1152 | in volumes: the pick is as cheap as the last of the cheapest if and only if no branch behind that is within the tolerance of it and smaller |
| Drifts.PickCanDrift | include/RTree.h:1137-1152 | in every dimension, for the box volume and for the sphere of the source, a record and three branch boxes where the pick costs more than a tolerance above the first branch |
| Drifts.SphereOfRoot | include/RTree.h:1238-1247 | the power of a square root times a positive constant is such a sphere |
| Drifts.PlanarSphere | include/RTree.h:1243-1244 | in two dimensions so is the sum of squares times a positive constant |
| Inserts.HalfSize | include/RTree.h:1364-1379 | each half of a full node plus one holds between MIN and MAX + 1 - MIN, so loading it cannot split |
| Inserts.HalvesKeepEntries | include/RTree.h:1180-1204 | the halves hold exactly the entries of the old node and the new branch |
| Splits.WorstPairIsParted | include/RTree.h:1399-1424 | the two branches that waste most, by volumes of boxes and first in order, end up in different groups |
| Splits.SplitOutcome | include/RTree.h:1300-1359 | the whole partition by its outcome: after the worst pair each next branch is the one leaning most to the least box around either group so far, ties included, and goes where it leans, until one group has all but the minimum and the other takes the rest |
| Splits.RoundIsNearStrongest | include/RTree.h:1314-1338 | in volumes: a round takes a branch whose difference in growth is within a tolerance of the largest, to the group that grows less |
| Splits.SplitNodes | include/RTree.h:1180-1204 | each branch of the full node and the new one is found in the node of its colour, at the place given by those of its colour before it |
| Inserts.AddItem | include/RTree.h:1085-1101 | a node stays whole exactly when it has room, both outcomes are well-formed and hold exactly one item more |
| Inserts.ItemGoesLast | include/RTree.h:1090-1094 | with room left the new branch goes behind the others, which stay as they are |
| Inserts.CoverFollowsEntries | include/RTree.h:990-994 | merging the new box into the old one gives the cover of the grown node |
| Inserts.InsertRec | include/RTree.h:973-1015 | insertion at any level through any cascade of splits adds exactly the item's entries and keeps levels, fill and tight boxes |
| Inserts.InsertRecStep | include/RTree.h:981-1010 | the descent goes into the picked branch; its box is merged when the child stays whole, and both boxes are covers when it splits |
| Inserts.InsertRect | include/RTree.h:1026-1062 | the same with root growth by at most one level, from a well-formed root or from one still being repaired |
| Inserts.Insert | include/RTree.h:556-574 | a well-formed tree stays so and gains exactly one entry |
| Removes.DisconnectBag | include/RTree.h:1107-1116 | moving the last slot into the gap loses exactly the entries of the gap |
| Removes.ShrinkOk | include/RTree.h:1511-1520 | keeping or dissolving a shrunken child preserves well-formedness up to one branch and every entry but the victim |
| Removes.RemoveFrom | include/RTree.h:1502-1533 | entries before are entries after plus those of the dissolved nodes plus one with the id; dissolved nodes miss one branch and lie below the node |
| Removes.VictimIsFirstReached | include/RTree.h:1502-1533 | the removed entry is the first with the id in the leaves the query reaches, and none is removed when there is none |
| Removes.OverlappingIsReached | include/RTree.h:1508-1510 | every entry overlapping the query lies in a leaf the query reaches |
| Descents.ReachedIff | include/RTree.h:1507-1510 | below an internal root an entry is reached if and only if it lies in a leaf whose cover overlaps the query |
| Removes.ReinsertItems | include/RTree.h:1468-1472 | the branches of a dissolved node go back in at its own level, adding exactly their entries, while the root may grow |
| Removes.ReinsertAll | include/RTree.h:1464-1479 | the whole list goes back in, and the tree stays uniform, filled and tightly boxed |
| Removes.Collapse | include/RTree.h:1483-1489 | a single collapse makes the root well-formed again and keeps all entries |
| Removes.RemoveRect | include/RTree.h:1455-1494 | removal returns a well-formed tree with the old entries less at most one |
| Removes.RemoveIsExact | include/RTree.h:1455-1533 | which entry goes; nothing changes when none goes; one goes whenever an entry with the id overlaps the query |
| Descents.RemovalByLeaves | include/RTree.h:1502-1533 | removal takes the first entry with the id in the first leaf that has one, among the leaves whose cover overlaps the query (or the root if it is a leaf), and none if and only if no such leaf has one |
| Descents.MissedTreeIsUntouched | include/RTree.h:1508-1509 | a query that misses the cover of an internal root changes nothing |
| Descents.LeavesHoldAll | include/RTree.h:1502-1533 | the leaves hold all entries of the tree, in depth-first order |
| Removes.RemoveUnique | include/RTree.h:1455-1533 | a stored entry with a unique id that overlaps the query is the one removed |
| Queries.PrunedIsScan | include/RTree.h:1591-1614 | the pruned descent visits exactly the entries a linear scan would find, in the same order |
| Queries.HitsInOrder | include/RTree.h:1602-1603 | the hits are exactly the overlapping entries, in their order |
| Runs.HitsList | include/RTree.h:1602-1603 | a linear scan finds exactly the overlapping entries, each as often as it is stored |
| Queries.DeliverIsPrefix | include/RTree.h:1602-1611 | the callback hears a prefix that ends with the first rejected id, and the count is its length |
| Queries.DeliverCounts | include/RTree.h:1604-1609 | without a callback every hit is counted |
| Joins.JoinReports | include/RTree.h:1653-1675 | no overlapping pair is missed, and with equal heights each is reported once |
| Joins.JoinIsSound | include/RTree.h:1653-1675 | every reported pair is stored and overlaps |
| Joins.CrossCountsPairs | include/RTree.h:1653-1675 | the number the count is compared with is that of the pairs of places whose boxes overlap |
| Joins.JoinIsExact | include/RTree.h:1653-1684 | the reported pairs are the overlapping ones; the count is at least their number, is zero exactly with it, and equals it for equal heights |
| JoinCounts.CountIsExactIffOnce | include/RTree.h:1653-1675 | for two trees of any heights the count is the number of overlapping pairs if and only if nothing is joined twice |
| JoinCounts.CountCanExceed | include/RTree.h:1659-1664 | for every MIN and MAX, two well-formed trees whose count is larger than the number of overlapping pairs |
| JoinCounts.EqualHeightsJoinOnce | include/RTree.h:1659-1661 | trees of equal height join nothing twice |
| Joins.IdPairsMeet | include/RTree.h:1668 | the collected id pairs are those of all overlapping entries |
| Joins.LeafJoinedRepeatedly | include/RTree.h:1659-1664 | against a leaf a child is joined once for every slot its box touches |
| Iterations.StackFits | include/RTree.h:276-282 | levels on the stack fall strictly, so its depth is at most the height plus one |
| Iterations.LeafConsumed | include/RTree.h:249-256 | a step within or off a leaf consumes exactly the current entry |
| Iterations.ChildEntered | include/RTree.h:257-271 | entering a child, with its siblings kept for later, changes nothing of what is pending |
| Storage.StoredTreesAreUnambiguous | include/RTree.h:713-740 | two streams that agree and start with a stored tree start with the same tree, whatever follows |
| Storage.StoredSlot | include/RTree.h:828-854 | a node is stored as its level, its count, and for each slot its box followed by the subtree or the id |
| Storage.StoredLeaf | include/RTree.h:842-851 | the stored form of a leaf, token by token |
| Runs.StepIsAllowed | include/RTree.h:556-643 | each operation and its answer are ones the multiset of entries allows |
| Runs.RemovalIsAllowed | include/RTree.h:578-594 | removal takes one entry with the id, or none when no such entry overlaps the query |
| Runs.RunRefinesMultiset | include/RTree.h:556-643 | any sequence of operations simulates a run on the multiset, answers included |
| Runs.ReachableTreesAreTight | include/RTree.h:522-643 | after any run from the constructor all boxes are tight and the height is logarithmic in the entries |
| Runs.KeyedStep | include/RTree.h:556-594 | with unique ids each operation is the one on a table from ids to boxes |
| Runs.KeyedRun | include/RTree.h:522-594 | from the constructor, a caller with unique ids sees a table after any run |
| Runs.TableSize | include/RTree.h:623-629 | then the count is the number of ids |
| Runs.LeafRemovalIgnoresBoxes | include/RTree.h:1524-1530 | in a single leaf the query box plays no part in removal |
| Runs.RemovalNeedNotOverlap | include/RTree.h:1526 | a tree, a query and an entry that is removed without being touched |
| Runs.RemovedOverlapsIff | include/RTree.h:1502-1533 | what is removed overlaps the query if and only if the first entry with the id in the leaves reached does, if any; it does when all stored ones with the id do |
| Splitting.InitParVars | include/RTree.h:1384-1395 | all branches untaken, both groups empty |
| Splitting.Classify | include/RTree.h:1429-1447 | one branch coloured; cover, area and count of its group follow |
| Splitting.WorstPair | include/RTree.h:1399-1420 | the double loop finds the seeds of the specification |
| Splitting.PickSeeds | include/RTree.h:1399-1424 | both seeds are classified, the second never hits a taken slot |
| Splitting.Strongest | include/RTree.h:1310-1340 | the inner loop chooses as the specification does, always an untaken branch |
| Splitting.ChoosePartition | include/RTree.h:1300-1359 | the arrays end up as the balanced partition and the closing assertions hold |
| Splitting.GetBranches | include/RTree.h:1265-1285 | the buffer holds the branches of the full node and the new one, and its cover |
| Splitting.LoadNodes | include/RTree.h:1364-1379 | both nodes receive their colour's branches in order without a nested split |
| Splitting.SplitNode | include/RTree.h:1180-1204 | the old node and one new node become the two halves, sharing nothing |
| Splitting.AddBranch | include/RTree.h:1085-1101 | the node becomes what the specification says, whole or split |
| Insertion.PickBranch | include/RTree.h:1125-1154 | the loop picks as the specification does |
| Insertion.InsertRectRec | include/RTree.h:973-1015 | the nodes below become the grown value, own what they owned plus new nodes only, and all of it is live |
| Insertion.InsertRect | include/RTree.h:1026-1062 | the same for the root, under a new root when it was split |
| Removal.ReInsert | include/RTree.h:1571-1579 | the node goes to the front of the list, in a new list cell |
| Removal.DisconnectBranch | include/RTree.h:1107-1116 | the last branch fills the gap and the node gives up what the gap owned |
| Removal.RemoveHere | include/RTree.h:1524-1532 | the leaf case, which compares ids only |
| Removal.RemoveRectRec | include/RTree.h:1502-1533 | the tree, the list of dissolved nodes and the ledger after a descent; nothing at all changed when nothing was found |
| Removal.ReinsertBranches | include/RTree.h:1468-1472 | one dissolved node is emptied into the tree, which takes over all it owned |
| Removal.ReinsertWaiting | include/RTree.h:1464-1479 | the whole list is emptied and freed, nodes and cells |
| Removal.CollapseRoot | include/RTree.h:1483-1489 | a redundant root is freed and its child takes its place |
| Removal.RemoveRect | include/RTree.h:1455-1494 | the tree is the specified one, live nodes are the reachable ones, and not found means untouched |
| Readers.CountRec | include/RTree.h:634-643 | adds the number of entries below a node |
| Readers.Search | include/RTree.h:1584-1615 | found count, ids told and the verdict are those of a linear scan cut after the first rejection |
| Readers.CheckNodes | include/RTree.h:1653-1675 | count and id pairs of the join, for nodes of any two levels |
| Copying.RemoveAllRec | include/RTree.h:882-893 | frees each node of a subtree exactly once and nothing else |
| Copying.CopyRec | include/RTree.h:744-781 | the copy has the same value and consists of new nodes only |
| FileStreams.SaveRec | include/RTree.h:828-854 | appends the stored form of the subtree |
| FileStreams.Save | include/RTree.h:801-824 | appends the seven header numbers by name, then the stored form of the tree |
| FileStreams.ReadHeader | include/RTree.h:666-703 | accepts exactly the streams that start with this tree's header |
| FileStreams.LoadRec | include/RTree.h:713-740 | rebuilds the stored tree in new nodes and stops exactly behind it |
| Iterators.Iterator.Push | include/RTree.h:276-282 | the stack never overflows, so the assertion holds |
| Iterators.Iterator.Current | include/RTree.h:198-230 | the current entry is the first one pending |
| Iterators.Iterator.FindNextData | include/RTree.h:241-273 | the current entry is dropped from what is pending, and true means that one remains |
| Iterators.GetFirst | include/RTree.h:299-314 | everything is pending, in depth-first order |
| Iterators.Walk | include/RTree.h:1748-1756 | the usual loop visits every entry once, in depth-first order |
| RTrees.RTree.constructor | include/RTree.h:522-538 | an empty well-formed tree, one live node |
| RTrees.RTree.Copy | include/RTree.h:542-545 | an equal tree that shares nothing with the original |
| RTrees.RTree.Destroy | include/RTree.h:549-552 | no node stays live |
| RTrees.RTree.Insert | include/RTree.h:556-574 | the value after is the specified insertion, and live nodes are the reachable ones |
| RTrees.RTree.Remove | include/RTree.h:578-594 | the value after is the specified removal, and live nodes are the reachable ones |
| RTrees.RTree.RemoveAll | include/RTree.h:858-865 | an empty tree whose only live node is its root |
| RTrees.RTree.Count | include/RTree.h:623-629 | the number of stored entries |
| RTrees.RTree.Search | include/RTree.h:598-619 | the answer of the specification |
| RTrees.RTree.Overlaps | include/RTree.h:1679-1684 | the id pairs of all overlapping entries of two trees, and exactly when the count is their number |
| RTrees.RTree.LoadStream | include/RTree.h:666-709 | the stored tree on an accepted header, no change on another; all live nodes are reachable afterwards if and only if the tree was a single leaf |
| RTrees.LoadLosesNodes | include/RTree.h:666-709 | a tree grown by insertions past one leaf has live nodes out of reach after loading from a stream |
| RTrees.RTree.Load | include/RTree.h:647-661 | the stored tree, or an empty one when the header is refused |
| RTrees.RTree.Replay | include/RTree.h:556-643 | any run on the object is the run on its value, with the same answers |
| RTrees.Diverge | include/RTree.h:542-545 | after copying, runs on either tree leave the other as its own run makes it |
| RTrees.SaveAndLoad | include/RTree.h:666-854 | what one tree saved is what another loads, whatever follows in the stream |
| Encodings.NetworkUnsigned | include/brep/util.h:253-258 | decoding four bytes and encoding again gives the same bytes |
| Encodings.NetworkSigned | src/libbu/convert.c:343-362 | the same for signed numbers, whose first byte is read as a signed char |
| Encodings.NetworkInjective | src/libbu/convert.c:427-445 | four bytes tell any two 32-bit numbers apart, signed or unsigned |
| Encodings.NetworkIsOrdered | include/brep/util.h:158-163 | at the first byte where two unsigned numbers differ the smaller number has the smaller byte, so the most significant comes first |
| Encodings.NetworkOfSigned | src/libbu/convert.c:427-445 | a negative number has the bytes of itself plus 2^32 |
| Encodings.BytesAreOrdered | src/libbu/htond.c:60-95 | the same order for numbers of any width |
| Encodings.HtondIsNetworkOrder | src/libbu/htond.c:60-95 | on either kind of host the bytes of a double in memory go out with its most significant byte first, and those bytes come back as the host keeps them |
| Encodings.HtondInverts | src/libbu/htond.c:60-95 | the byte order of a double is restored by a second conversion, on either kind of host |
| Encodings.EncodeInjective | include/brep/util.h:151-202 | values of one kind with the same bytes are equal |
| Encodings.ScriptsAreUnambiguous | include/brep/util.h:247-307 | given the kinds, a stream starts with at most one script of values |
| Serializers.GrowthIsAmortized | include/brep/util.h:210-221 | for any writes: everything fits, capacity is at most the initial one or twice the bytes, all copying together is less than twice the bytes, growths are logarithmic |
| Serializers.Serializer.Cost | include/brep/util.h:210-221 | in every state of the serializer the buffer is at most the initial one or twice its contents, and the bytes moved by all reallocations are fewer than twice its contents |
| Serializers.Serializer.Realloc | include/brep/util.h:215-218 | one more reallocation, which moves every byte of the old buffer |
| Serializers.Serializer.Take | include/brep/util.h:141-148 | hands over the bytes and starts a new buffer |
| Serializers.Serializer.Extend | include/brep/util.h:210-221 | room behind the old bytes, which survive a move; the buffer moves only when it is too small, and then to twice what is needed |
| Serializers.Serializer.WriteUint32 | include/brep/util.h:158-163 | appends four bytes, most significant first |
| Serializers.Serializer.WriteInt32 | include/brep/util.h:166-173 | appends four bytes of two's complement, most significant first |
| Serializers.Serializer.WriteDouble | include/brep/util.h:176-180 | appends the eight bytes of the double with the most significant first, whatever the host |
| Serializers.Serializer.WriteAll | include/brep/util.h:151-202 | any script appends its encoding, across any number of growths, with the buffer and the bytes moved so far bounded by twice the contents |
| Serializers.Deserializer.Get | include/brep/util.h:315-324 | the next bytes, or the end of the program exactly when there are too few |
| Serializers.Deserializer.ReadUint32 | include/brep/util.h:253-258 | the number whose encoding comes next |
| Serializers.Deserializer.ReadInt32 | include/brep/util.h:261-269 | the signed number whose encoding comes next |
| Serializers.Deserializer.ReadDouble | include/brep/util.h:272-277 | the double whose bytes, most significant first, come next, whatever the host |
| Serializers.Deserializer.ReadAll | include/brep/util.h:247-307 | any script of reads gives the values whose encodings the stream starts with, and fails exactly when it is too short |
| Serializers.Deserializer.Close | include/brep/util.h:240-244 | content exactly when everything was read |
| Serializers.RoundTrip | include/brep/util.h:122-329 | every script written, taken and read back returns its values and satisfies the reader's destructor |

## Left out

- FileStreams.LoadRec: asks for a stored tree in the stream; the source checks nothing behind the header, and what a malformed or truncated body does is not modelled.
- RTrees.RTree.LoadStream: likewise about the part behind an accepted header.
- RTrees.RTree.Load: likewise about the part behind an accepted header; a file that cannot be opened is not modelled either.
- RTrees.RTree.Insert: asks for a proper box, as the debug assertions of the source do; a release build takes any box. `Remove` and `Search` take any box here too.
- Iterators.Walk: asks for a root below level 32, the number of stack slots; a tree with fewer than 2^31 entries meets that (`Trees.HeightFitsIteratorStack`).
- Rects.RectSphericalVolume: square root, power and the constant are one unspecified monotone function of the sum of squares, of which the source's sphere is an instance (`Rects.SpheresAreRadial`).
- Inserts.Insert: asks for a proper box, as above.
- Nodes.Memory.FreeNode: the ledger is consulted when a node is freed, not when one is read; that no freed node stays reachable is shown after each operation, not within one.
- Serializers.Serializer.Extend: sizes are unbounded, so overflow of `size_t` is not modelled; nor is running out of memory.
- Queries.DeliverIsPrefix: a callback is a function of the ids it was told so far, the context pointer being part of it; one that changes the tree is not modelled.
- Floating point: rounding, NaN and infinities; coordinates and volumes are exact reals.
- `MIN = 1` and `2 * MIN > MAX + 1`: the static assertions allow them, the split and the root collapse do not support them.
- The versions of `CheckNodes` and `Overlaps` that collect two sets of ids: the same join with its pairs split.
- `Intersect`, `IsectNode` and `Intersects`: the ray test itself is in another library; the descent is the one of `Search`.
- `plot` and `plot2d`: drawing only; their iteration loop is `Iterators.Walk`.
- File handles and the raw layout of nodes on disk: a stream is a sequence of typed tokens.
- The memory pools behind `RTREE_DONT_USE_MEMPOOLS`, for which the header has no code, and `PooledObject`.
- Machine-specific branches of `htond` for hosts that are neither big- nor little-endian.
- Vectors, which the serializer writes and reads as points.
