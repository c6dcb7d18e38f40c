# Teardown tree: a verified model

The teardown tree keeps its nodes in one array at heap indices (the children of `i` at
`2i+1` and `2i+2`), with a parallel presence mask. A bulk delete takes a range, or all
intervals that overlap a query, out of the tree in one recursive pass. A node that is taken
becomes an open *slot*: it waits on the max stack while the pass is in its left subtree and on
the min stack while it is in its right subtree, and survivors found deeper move up into the
slots. This project models the plain tree, the interval tree, the array layout they share, and
the tree of boxes that the benchmarks compare with, and proves that every operation does to
the in-order sequence of items what a filter on a list would do.

## How the model is built

* `Cells` holds the central notion: `Inorder(c, i)`, the items of the subtree at `i`. A nil cell
  contributes nothing but does not hide its subtrees, so the sequence keeps its meaning while
  ancestors are holes. `Tidy` says that nothing dangles below a nil cell (equivalently, by
  `Cells.TidyIffParentsLive`, that every node's parent is present), `Exact` that every node
  carries the right `maxb`. A cell that was cleared keeps its old node, because the
  interval tree reads it afterwards.
* `Memory` and `BulkSpec` describe the state of a bulk delete (`Mem`: cells and both slot stacks)
  and the one contract, `Visited`, that all routines share: *what went into min slots, what stays
  in the subtree and what went into max slots is, in this order, the list of survivors*; a slot
  stays open only if nothing is left to fill it with; outside the subtree nothing but open slots
  changes. `SlotsOk` says that the filled slots are a prefix of each stack and hold nodes, that the
  slots that wait, among them those hidden for the time of a left descent, are exactly the nil
  ancestors (`Memory.WaitingIsNil`), and that a stack never holds more slots than the path has
  turns of its kind. `BulkResults.Divided` reads the contract slot by slot.
* The source asserts that no push passes the capacity of its stack. Here the memory of a stack may be
  longer than its capacity and `peak` remembers the greatest number of slots, so that a failed
  assertion can be described: `Overrun()` says that a push has passed the capacity, `Roomy()` that
  none has and that the capacity covers the turns of every path to a node. All operations keep
  `Roomy()` (`StaysWithin`), and freshly built trees have it.
* The closures that the source passes to its descents are the constructors of `Op`, and
  `Workers.Worker.Visit` is the visitor that runs the routine an `Op` names and then, for the
  interval tree, restores `maxb`. `BulkSteps`, `BulkJoins`, `BulkRoutines`, `BulkFill`,
  `BulkRanges` and `BulkOverlap` hold the lemmas about the steps; `Worker` holds the routines
  themselves, as methods over the arrays of `TreeReprs.TreeRepr` and the two `SlotStack`s.
* Keys are intervals of integers in lexicographic order. The plain tree uses nothing but the order.
  Duplicates are allowed everywhere. A filter is a predicate on keys; `noop` is the static flag of
  the filter type and implies that the filter accepts everything.
* `Runs` puts the operations together: sequences of commands on either tree, agreement of trees of
  different shapes, of the fast and the filtered path, and of the array tree and the tree of boxes.

## Findings

* `query_range` starts at the topmost node keyed with the start of the range, although
  `index_of` is documented to return the first equal element. It yields all items in range if and
  only if no node with that key lies in that node's left subtree (`RangeQuery.QueryExact`,
  `PlainTrees.PlTree.QueryRange`); a tree of two equal keys where it does not is given by
  `RangeQuery.DuplicateMissed`.
* `succ` returns the right child of a node that has one. That is where an in-order walk goes on if and
  only if this right child has no left child (`TreeReprs.TreeRepr.Succ`); `Traversal.RightChildSkips`
  gives a tree where it is not. `query_range` calls it on nil cells only, where it is right
  (`Traversal.GapFollows`).
* `RangeRefDriver` and `RangeDriver` differ, and do so exactly on the start of an empty range
  (`Selections.DriversDiffer`).
* In the branch of `filter_overlap_ivl_rec` for a root beyond the query, no max slot is ever open, so
  the descent that the source makes for that case is never reached
  (`Workers.Worker.FilterOverlapBeyond`).
* `refill` keeps the slot stacks, with the capacity they were built with, while the master's nodes may
  need more. Afterwards no command can make a push pass the capacity if and only if no path to one of
  the master's nodes turns left, or turns right, more often than the capacity: then every run of
  commands is fine (`Refills.RunAfterRefill`), and otherwise deleting everything through a filter
  passes it (`Refills.DeleteAllAfterRefill`). `Refills.RefillOverruns` is such a tree: a
  single node in four cells, refilled with the nodes 0, 1 and 3. Depth is not the measure: for the
  nodes 0, 1 and 4 a capacity of one is enough (`Refills.ZigzagNeedsLess`).

## Model

| member | source | states |
|---|---|---|
| HeapIndex.BelowSplit | src/base/mod.rs:46-58 | a subtree is its root and the two disjoint subtrees of the children at 2i+1 and 2i+2 |
| Items.OrderOfKeys | src/applied/interval.rs:110-131 | the start decides the order, then the end; it agrees with both components, is antisymmetric and total |
| Items.OrderIsTransitive | src/applied/interval.rs:123-131 | the order is transitive, its strict and its reflexive form together |
| Items.WellFormedIsAfterStart | src/applied/interval.rs:14-17 | the intervals considered are those at or after the point where they start, empty ones included |
| Items.OverlapIsCommonPoint | src/applied/interval.rs:14-17 | two well-formed intervals overlap exactly if they have a point in common, an empty interval being the point where it starts |
| SlotStacks.SlotStack.constructor | src/base/slot_stack.rs:27-35 | an empty stack of the given capacity that has never held a slot |
| SlotStacks.SlotStack.Push | src/base/slot_stack.rs:37-42 | the new slot is on top and open; the count of filled slots stays; the peak follows |
| SlotStacks.SlotStack.Pop | src/base/slot_stack.rs:44-53 | the top slot goes; the filled count follows only if all slots were filled |
| SlotStacks.SlotStack.Fill | src/base/slot_stack.rs:62-69 | the bottommost open slot is returned and counts as filled, so the filled ones stay a prefix |
| Memory.SlotsKept | src/base/slot_stack.rs:38-97 | whatever a routine does below a node, filled slots hold nodes unless hidden, the others are nil ancestors of it, and all its nil ancestors are on a stack |
| Memory.WaitingIsNil | src/base/bulk_delete.rs:197-290 | the slots that wait for a node, open or hidden, are exactly the nil ancestors |
| Memory.SlotsWithinDepth | src/base/slot_stack.rs:38-42 | both stacks together never hold more slots than there are levels above the node |
| BulkSteps.PushLeftOk | src/base/bulk_delete.rs:197-216 | pushing a nil node before entering its left subtree keeps the slot discipline for the child, within the depth bound |
| BulkSteps.PushRightOk | src/base/bulk_delete.rs:220-239 | the same for the min stack and the right subtree |
| BulkSteps.PushWithin | src/base/slot_stack.rs:38-42 | a push on the way to a live child never passes a capacity that covers the turns of the paths to the live nodes |
| BulkResults.Divided | src/base/bulk_delete.rs:69-107 | of r survivors the first min(m, r) fill the m open min slots, smallest bottommost, the last min(M, r - a) of what remains the M open max slots, largest bottommost, and the rest stays in order |
| BulkResults.FillersKeepAll | src/base/bulk_delete.rs:126-161 | filling slots keeps every item, and a slot is open afterwards only if the subtree is empty |
| Workers.Worker.FilterTake | src/base/bulk_delete.rs:112-120 | the node is taken out exactly if the filter accepts its key; the cell keeps a stale copy |
| Workers.Worker.FillSlotMin | src/base/bulk_delete.rs:167-176 | the node moves to the bottommost open min slot, which becomes filled |
| Workers.Worker.FillSlotMax | src/base/bulk_delete.rs:180-188 | the node moves to the bottommost open max slot, which becomes filled |
| Workers.Worker.FillSlotsMin | src/base/bulk_delete.rs:126-142 | the smallest items of the subtree fill the min slots, the rest keeps its order, nothing dangles; says whether all slots are filled |
| Workers.Worker.FillSlotsMax | src/base/bulk_delete.rs:146-161 | the same with the largest items and the max slots |
| Workers.Worker.DescendLeft | src/base/bulk_delete.rs:197-216 | the left subtree is visited with the node, if it is nil, as last max slot; returns whether the node is nil afterwards |
| Workers.Worker.DescendRight | src/base/bulk_delete.rs:220-239 | the mirror image with the min stack |
| Workers.Worker.DescendLeftFreshSlots | src/base/bulk_delete.rs:277-290 | the outer max slots take no part and are exactly as before afterwards |
| Workers.Worker.DescendConsumeLeft | src/base/bulk_delete.rs:294-302 | both the unfiltered sweep and the filtered descent send the accepted items in order and leave the others |
| Workers.Worker.DescendConsumeRight | src/base/bulk_delete.rs:305-313 | the same on the right |
| Workers.Worker.ConsumeSubtreeUnfiltered | src/base/bulk_delete.rs:58-66 | the in-order walk that clears nodes behind itself sends the whole in-order sequence of any tidy subtree and empties it, touching nothing else |
| Workers.Worker.ConsumeNext | src/base/base_repr.rs:566-586 | one turn of that walk sends the first item left, and what is left starts at the next position, or nothing is left at the cut-off |
| Workers.Worker.ConsumeSubtreeFiltered | src/base/bulk_delete.rs:69-107 | accepted items go to the sink in order; survivors fill both kinds of slots and the rest stays in order |
| Workers.Worker.FillMaxRest | src/base/bulk_delete.rs:97-106 | the end shared by the routines: the root and then the left subtree fill the max slots that are still open |
| Workers.Worker.UpdateMax | src/applied/interval_tree.rs:651-673 | a live node gets the maximum of its own end and its children's bounds |
| Workers.Worker.Visit | src/applied/interval_tree.rs:651-673 | any routine followed by the visitor leaves all bounds of the subtree exact |
| BulkJoins.VisitedExact | src/applied/interval_tree.rs:651-673 | why one recomputation at the root of the subtree is enough after a routine |
| BulkJoins.MinTail | src/base/bulk_delete.rs:126-142 | putting the root into a min slot and going on in the right subtree completes the contract |
| BulkJoins.MaxTail | src/base/bulk_delete.rs:97-106 | putting the root into a max slot and going on in the left subtree completes the contract, even though nodes moved while the left subtree was already done |
| Workers.Worker.DeleteRangeMin | src/applied/plain_tree.rs:392-427 | with all keys at or after the range start, exactly the accepted items in range go out in order; survivors fill min slots |
| Workers.Worker.DeleteRangeMinInside | src/applied/plain_tree.rs:396-417 | the branch where root and left subtree are in range, on the fast and the filtered path |
| Workers.Worker.DeleteRangeMax | src/applied/plain_tree.rs:431-462 | with all keys before the range end, exactly the accepted items in range go out in order; survivors fill max slots |
| Workers.Worker.DeleteRangeMaxInside | src/applied/plain_tree.rs:435-452 | the branch where root and right subtree are in range, on the fast and the filtered path |
| Workers.Worker.DescendDeleteMaxLeft | src/applied/plain_tree.rs:474-482 | the shared slots of the fast path and the fresh slots of the filtered path |
| Workers.Worker.DeleteRangeLoop | src/applied/plain_tree.rs:363-388 | finds the topmost node in range, or shows that nothing is in range |
| Workers.Worker.DeleteAtTop | src/applied/plain_tree.rs:371-380 | both ends of the range are treated from the topmost node and nothing is left open |
| Workers.Worker.Filter | src/applied/plain_tree.rs:355-360 | the whole bulk delete: selected items out in order, the others stay in order, nothing dangles, both stacks empty |
| RangeLoop.SearchMissed | src/applied/plain_tree.rs:364-387 | a search that ends at a nil cell has no item in range anywhere in the tree |
| RangeLoop.TopEnd | src/applied/plain_tree.rs:371-380 | after both ends, the survivors of the topmost subtree are all in place |
| Selections.RangeDriversMonotone | src/base/drivers.rs:70-124 | both drivers decide monotonically when the range is not reversed, which is what lets whole subtrees be taken unchecked |
| Selections.DriversSelect | src/base/drivers.rs:70-124 | what the two decisions select together is the half-open range, and for RangeDriver also the start itself |
| Selections.DriversDiffer | src/base/drivers.rs:118-123 | the two drivers disagree exactly on the start of an empty range |
| Selections.SelectConserves | src/applied/plain_tree.rs:230-236 | what is selected and what is left are together the initial items |
| PlainTrees.PlTree.FilterWithDriver | src/applied/plain_tree.rs:230-236 | for any monotone driver and any tree shape, exactly the selected and accepted items are returned in order and the others keep their order; the tree is valid afterwards, its size the number of items; the stacks never outgrow the turns of the paths, and when a filtered delete takes everything they reach them |
| PlainTrees.PlTree.FilterRange | src/applied/plain_tree.rs:207-211 | the same for a range |
| PlainTrees.PlTree.DeleteRange | src/applied/plain_tree.rs:199-203 | the same without a filter, on the fast path |
| PlainTrees.PlTree.FilterRangeRef | src/applied/plain_tree.rs:216-228 | the same for a range of references, which excludes the start of an empty range |
| PlainTrees.PlTree.QueryRange | src/applied/plain_tree.rs:238-258 | yields the items in range from the topmost node with the start key on; all items in range if and only if that node has no equal one to its left |
| RangeQuery.QueryExact | src/applied/plain_tree.rs:241-257 | both directions of that condition, for every tree |
| RangeQuery.QueryExactIfUnique | src/applied/plain_tree.rs:241-257 | the condition holds whenever the start key occurs at most once |
| RangeQuery.DuplicateMissed | src/applied/plain_tree.rs:241-257 | a tree of two equal keys whose query misses one |
| PlainTrees.PlTree.Delete | src/applied/plain_tree.rs:123-130 | removes exactly the item at the topmost node with the key and returns its value, or returns None exactly when there is none; all other items keep their order and nothing dangles, duplicates included |
| PlainTrees.PlTree.DeleteIdx | src/applied/plain_tree.rs:134-145 | removes exactly the item at the index: what is left is what was before it, below it and after it, in order; the item before it takes its place, or without a left subtree the item after it |
| PlainTrees.PlTree.DeleteMax | src/applied/plain_tree.rs:153-168 | moving predecessors up keeps the in-order sequence and ends with the hole at a leaf; the hole index grows |
| PlainTrees.PlTree.DeleteMin | src/applied/plain_tree.rs:175-190 | the same with successors |
| PlainTrees.PlTree.WithSorted | src/applied/plain_tree.rs:89-91 | a valid tree without gaps that holds exactly the list, with stacks of its height |
| PlainTrees.PlTree.WithShape | src/applied/plain_tree.rs:27-32 | a tree of any given shape, valid exactly if nothing dangles and the items are in order |
| SingleDelete.NotFound | src/base/base_repr.rs:368-386 | a search that ends at a nil cell shows that no item has the key |
| SingleDelete.RemovedMembers | src/applied/plain_tree.rs:123-130 | removing one item removes it from the multiset once and nothing else |
| SingleDelete.MoveLastUp | src/applied/plain_tree.rs:155-167 | one move: the predecessor goes to the hole, the order stays, and all but the new hole is tidy |
| TreeReprs.TreeRepr.IndexOf | src/base/base_repr.rs:357-387 | the topmost node with the key, or the nil cell where everything before is smaller and everything after larger |
| TreeReprs.TreeRepr.FindMin | src/base/base_repr.rs:398-403 | the leftmost node of the subtree |
| TreeReprs.TreeRepr.FindMax | src/base/base_repr.rs:390-395 | the rightmost node of the subtree |
| TreeReprs.TreeRepr.Take | src/base/base_repr.rs:407-417 | clears the cell, keeps the stale node, size again counts the live cells |
| TreeReprs.TreeRepr.MoveFromTo | src/base/base_repr.rs:433-442 | a node moves to any nil cell; all else stays |
| TreeReprs.TreeRepr.NextIdx | src/base/base_repr.rs:573-583 | the next position of the walk within a subtree, or none exactly at its last node |
| TreeReprs.TreeRepr.Succ | src/base/base_repr.rs:345-353 | where the in-order walk goes on, or past the cells if it is over, if and only if the right child, if there is one, has no left child |
| TreeReprs.TreeRepr.Refill | src/base/base_repr.rs:682-690 | all cells and the size become those of a master of the same length; the stacks, with their capacity, stay |
| TreeReprs.TreeRepr.WithSorted | src/base/base_repr.rs:42-56 | a tree without gaps whose in-order sequence is the list, with capacity for its height |
| TreeReprs.TreeRepr.WithNodes | src/base/base_repr.rs:59-84 | a tree of any given shape, dangling nodes included; size is the number of nodes, the capacity of the stacks the computed height, which is enough if nothing dangles |
| TreeReprs.HeightBoundsDepth | src/base/base_repr.rs:293-300 | the computed height exceeds the depth of every node |
| TreeReprs.HeightAttained | src/base/base_repr.rs:293-300 | and some node is exactly that deep, so the height is no greater than it must be |
| Traversal.LeftEnclosingIsEnclosing | src/base/base_repr.rs:699-710 | the bit form in three branches is the nearest ancestor-or-self that is a left child, for every 1-based index |
| Traversal.Climb | src/base/base_repr.rs:576-583 | without a right child, either nothing comes after the node in the subtree at root and the cut-off holds, or the walk goes on at the parent of the enclosing left child |
| Traversal.GoRight | src/base/base_repr.rs:573-574 | with a right child, the walk goes on at its leftmost node |
| Traversal.RightChildFollows | src/base/base_repr.rs:346-347 | the walk goes on at the right child if and only if that has no left child |
| Traversal.RightChildSkips | src/base/base_repr.rs:346-347 | with the nodes 0, 2 and 5 it goes on at 5 and not at the right child 2 |
| Traversal.GapFollows | src/base/base_repr.rs:348-351 | without a right child, the parent of the enclosing left child is where the walk goes on, and if there is none the walk is over |
| Traversal.RecursiveIsInorder | src/base/base_repr.rs:558-588 | the sequence of the walk is the usual recursive traversal on every tidy tree |
| Cells.TidyIffParentsLive | src/base/base_repr.rs:283-287 | nothing dangles exactly if every node's parent is present |
| Iterators.Iter.Next | src/base/base_repr.rs:750-761 | yields the first pending item, or None exactly when none is pending; the remaining count is the number of pending items throughout |
| Iterators.Collect | src/base/base_repr.rs:740-767 | a run of the iterator yields the recursive in-order sequence of a tree of any shape |
| Iterators.IntoIter.Next | src/base/base_repr.rs:787-804 | the same while the nodes are taken out; size is the number of items still to come |
| Iterators.Drain | src/base/base_repr.rs:777-805 | a run of the consuming iterator yields the recursive in-order sequence, ends with size 0 and leaves no node |
| Iterators.StillNext | src/base/base_repr.rs:794-798 | taking the current node does not change which one is next |
| Layout.SelectRootOf | src/base/base_repr.rs:304-315 | for n = 2^k - 1 + z items (1 <= z <= 2^k) the split point is the number of nodes in the left subtree of a left-complete heap of n nodes |
| Layout.LeftCount | src/base/base_repr.rs:304-326 | at every index, the split sizes are exactly the numbers of array cells in the two subtrees, so there are no gaps |
| Layout.HeightStep | src/base/base_repr.rs:325-340 | the left part is at least as high as the right one and gives the height |
| Layout.Build | src/base/base_repr.rs:319-343 | writes each cell of the subtree exactly once and no others; its in-order reading is the list; 2^(h-1) <= n < 2^h for the returned height of n > 0 items |
| Layout.ShapeLaid | src/base/base_repr.rs:59-84 | a tree given cell by cell has the given items from left to right |
| Layout.ShapeTidy | src/base/base_repr.rs:59-84 | it is tidy exactly if every given cell has its parent given |
| IntervalTrees.IvTree.WithSorted | src/applied/interval_tree.rs:247-251 | a valid interval tree without gaps that holds exactly the list, with exact bounds and stacks of its height |
| IntervalTrees.IvTree.WithShape | src/applied/interval_tree.rs:257-271 | the same for any given shape, valid exactly if nothing dangles and the items are in order and well formed; the bounds are exact in any case |
| IntervalTrees.IvTree.InitMaxb | src/applied/interval_tree.rs:28-33 | in a layout without gaps, one sweep from the last node to the first makes all bounds exact |
| IntervalTrees.IvTree.InitMaxbOfShape | src/applied/interval_tree.rs:263-268 | the same over all cells of a layout with gaps |
| IntervalDelete.SweepStep | src/applied/interval_tree.rs:17-33 | handing a bound up keeps every bound the maximum over the part swept so far |
| IntervalDelete.ExactIsGreatest | src/applied/interval_tree.rs:17-33 | bounds that are right node by node are the greatest end of the whole subtree at every node, and the other way round |
| IntervalTrees.IvTree.UpdateMaxb | src/applied/interval_tree.rs:55-71 | recomputes one bound from the node and its children |
| IntervalTrees.IvTree.UpdateAncestorsAfterDelete | src/applied/interval_tree.rs:74-83 | the whole subtree at the end point is exact again, although the repair stops at the first bound that is not the removed one |
| IntervalDelete.RepairStops | src/applied/interval_tree.rs:77-81 | why it may stop: if the bound is not the removed one, it and all bounds above are still right |
| IntervalTrees.IvTree.Delete | src/applied/interval_tree.rs:90-101 | removes exactly the item at the topmost node with the key or returns None exactly when there is none; order, parents and all bounds are right afterwards |
| IntervalTrees.IvTree.DeleteIdx | src/applied/interval_tree.rs:105-120 | removes the item at the index, leaves the items of both its subtrees in order, and its subtree exact; the item before it takes its place, or without a left subtree the item after it |
| IntervalTrees.IvTree.DeleteMax | src/applied/interval_tree.rs:124-140 | removes and returns the last item of the subtree and leaves it exact |
| IntervalTrees.IvTree.DeleteMin | src/applied/interval_tree.rs:144-160 | removes and returns the first item of the subtree and leaves it exact |
| Workers.Worker.FilterOverlapIvlRec | src/applied/interval_tree.rs:498-581 | exactly the accepted items that overlap the query go out in order, despite the pruning and the unchecked shortcuts; survivors fill the slots and the bounds below are exact |
| Workers.Worker.FilterOverlapBeyond | src/applied/interval_tree.rs:515-529 | with the root beyond the query the right subtree has no overlap, and no max slot is ever open |
| Workers.Worker.FilterOverlapLeft | src/applied/interval_tree.rs:531-556 | root and left subtree; the cleared or refilled cell then has what the decision about the right subtree needs |
| BulkOverlap.RightHits | src/applied/interval_tree.rs:558-569 | the flags passed to the right are right: all items there start at or after the query, and where they are taken unchecked all of them overlap, although the cell is stale or holds another node |
| BulkOverlap.AllOverlap | src/applied/interval_tree.rs:539-566 | intervals that start at or after the query and end before its end all overlap it |
| BulkOverlap.MaxbBounds | src/applied/interval_tree.rs:507-508 | no interval of the subtree ends after the bound |
| Workers.Worker.FilterOverlap | src/applied/interval_tree.rs:362-370 | the whole overlap delete: both stacks empty, nothing dangles, all bounds exact |
| IntervalTrees.IvTree.FilterOverlap | src/applied/interval_tree.rs:173-179 | on any valid interval tree, exactly the accepted overlapping items are returned in order, the others keep their order, and the tree is valid afterwards |
| IntervalTrees.IvTree.QueryOverlap | src/applied/interval_tree.rs:182-187 | from any start index, equals the naive filter by overlap of the in-order sequence of that subtree |
| IntervalTrees.IvTree.QueryOverlapRec | src/applied/interval_tree.rs:327-352 | the same for a subtree, despite both prunings |
| OverlapQuery.PrunedByMaxb | src/applied/interval_tree.rs:342-343 | nothing overlaps in a subtree whose bound is before the query |
| OverlapQuery.PrunedByRoot | src/applied/interval_tree.rs:344-346 | nothing at or to the right of a root beyond the query overlaps |
| PointerBst.BuildFlat | benchmarks/src/bst/mod.rs:77-93 | the built tree of boxes lists the items it was built from |
| PointerBst.BuildHeight | benchmarks/src/bst/mod.rs:60-93 | its height h satisfies 2^(h-1) <= n < 2^h for n > 0 items, and at every branch the left side is at least as high as the right |
| PointerBst.BuiltAlike | benchmarks/src/bst/mod.rs:60-93 | it has the same items in the same places as the array tree built from the same list |
| PointerBst.ConsumeTree | benchmarks/src/bst/mod.rs:97-106 | sends the in-order sequence |
| PointerBst.DeleteRangeLeft | benchmarks/src/bst/mod.rs:185-202 | with all keys before the range end, the items in range go out in order and the others stay in order |
| PointerBst.DeleteRangeRight | benchmarks/src/bst/mod.rs:204-219 | the same with all keys at or after the range start |
| PointerBst.DeleteMax | benchmarks/src/bst/mod.rs:221-241 | takes the last item off |
| PointerBst.DeleteRangeLoop | benchmarks/src/bst/mod.rs:125-166 | finds the topmost node in range and replaces it by the join of what is left on both sides |
| PointerBst.BST.DeleteRange | benchmarks/src/bst/mod.rs:118-122 | the sequence specification of the array tree; size is kept |
| PointerBst.ConsumeIter.Next | benchmarks/src/bst/mod.rs:270-292 | the rotations keep the in-order sequence and end; the first item is yielded, None exactly on the empty tree |
| PointerBst.IntoIter.Next | benchmarks/src/bst/mod.rs:305-315 | the remaining count is the number of items still to come |
| PointerBst.Drain | benchmarks/src/bst/mod.rs:43-49 | a run of the iterator yields the in-order sequence and the count ends at 0 |
| Runs.RunPlain | src/applied/plain_tree.rs:123-236 | over any run of single, range and filtered deletes, removed and remaining items are together the initial ones, and the remaining sequence is a subsequence of the initial one |
| Runs.RunIntervals | src/applied/interval_tree.rs:90-179 | the same for the interval tree, bounds exact throughout |
| Runs.RunConserves | src/applied/plain_tree.rs:123-236 | why: every command conserves the items and their order |
| Runs.SubsequencePlaces | src/applied/plain_tree.rs:123-236 | the items of a subsequence are found at increasing places of the whole |
| Runs.PlacesSubsequence | src/applied/plain_tree.rs:123-236 | and what is found at increasing places is a subsequence |
| Runs.RunsAgree | src/applied/plain_tree.rs:123-236 | runs of the same commands on trees of any shapes with the same keys remove the same keys in the same order and leave the same keys |
| Runs.RunDetermined | src/applied/plain_tree.rs:123-236 | with unique keys, the items agree as well |
| Runs.SameRuns | src/applied/plain_tree.rs:123-236 | both facts for two array trees |
| Runs.FastAndFiltered | src/applied/plain_tree.rs:405-482 | with a filter that accepts everything, the fast path and the filtered path return the same items and leave the same sequence |
| Runs.FastAndFilteredOverlap | src/base/bulk_delete.rs:294-313 | the same for overlap deletes |
| Runs.QueryThenDelete | src/applied/interval_tree.rs:165-187 | the overlap query yields what the overlap delete then removes |
| Runs.ArrayAndBoxes | benchmarks/src/bst/mod.rs:118-122 | the array tree and the tree of boxes return the same items, leave the same sequence and agree on the size |
| Runs.RunThenRefill | src/base/base_repr.rs:681-691 | whatever a run did, a refill from a master of the same length brings back all the master's cells, its size and its items |
| Refills.ExactRoom | src/base/slot_stack.rs:38-42 | where every node above a node waited, a capacity was passed exactly if it is less than the turns of some path |
| Refills.DeleteAll | src/applied/plain_tree.rs:207-211 | a filtered delete of everything, on any tree: everything is returned in order, and a push passes the capacity exactly if the capacity does not cover the turns of the paths to the nodes |
| Refills.DeleteAllIntervals | src/applied/interval_tree.rs:173-179 | the same for the interval tree and a query that overlaps everything |
| Refills.RunAfterRefill | src/base/base_repr.rs:682-690 | if the capacity covers the turns of the paths to the master's nodes, no run of commands after the refill passes it |
| Refills.DeleteAllAfterRefill | src/base/base_repr.rs:682-690 | after the refill, deleting everything passes the capacity exactly if it does not cover them |
| Refills.RefillOverruns | src/base/base_repr.rs:682-690 | a refill after which deleting everything passes the capacity |
| Refills.ZigzagNeedsLess | src/base/slot_stack.rs:38-42 | nodes of depth 2 for which one slot on each stack is enough |

## Left out

- Raw memory: `ptr::read`, `set_len`, `transmute`, `UnsafeCell`, the copy-and-forget in `work`, and dropping nodes; the model has plain arrays and a mask, and a worker that shares the tree.
- `src/external_api.rs`, the sinks and adapters, `Debug` and `Display`, cloning, and the plumbing of entries: no hard content. A sink is the sequence of what it received.
- `clear` and `drop_items` of the tree; `find`, `contains` and `lookup`-style wrappers around `index_of`.
- `traverse_inorder_rev`, `right_enclosing` and the preorder traversal.
- `TreeRepr::new`: the sort of its argument is the standard library's; the model starts from a sorted list.
- Running time: the bound on slots by the depth of the node is proved instead.
- Filters with state and reversed ranges: a filter is a predicate, and a range starts at or before its end. Stored intervals and queries have `a <= b`.
- Keys of arbitrary ordered types: keys are pairs of integers in lexicographic order, which the plain tree uses as an order only. Nodes of the plain tree carry a bound that nothing reads.
- What a release build does once a push has passed the capacity: the source's assertion has failed and it writes past its memory; the model only says that it happened.
- `usize` indices: unbounded naturals. `capacity()` of a vector is its length.
- PlTree.Delete: needs a live root when the array is not empty, as `index_of` asserts; `PlTree.QueryRange` and the interval tree's delete likewise. `Runs` skips the single delete on an empty tree for that reason.
- Iterators.IntoIter.constructor: needs a live root when the array is not empty; from an emptied tree with cells left, the source's `next` runs into its assertion.
- Traversals with a callback that stops early are modelled where they are used: the query and the sweep.
- PointerBst: boxes are owned, so a tree is a value, and the pointer that walks down is the path it took; updating boxes in place is not modelled.
- The long branches of `delete_range_min`, `delete_range_max`, `filter_overlap_ivl_rec` and the loop of the sweep are methods of their own, and the three equal endings of the routines are one, `FillMaxRest`.
