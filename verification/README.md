# A verified model of the storage and query core

This project models, in Dafny, the parts of the database where correctness is hardest to see from reading one
function, and proves what they promise over all inputs and all runs.

| part | files |
|---|---|
| index B+tree: pages, splits, merges, scans | `SortedEntries`, `PageOps`, `BTreeTheory`, `BTreeShape`, `BTreeSteps`, `BTreeInsert`, `BTreeMerge`, `BTreeScan`, `BTreeDelete`, `BTree`, `IndexScan` |
| index and directory pages as bytes | `Bytes`, `EntryPage`, `IndexPages`, `DirectoryPages` |
| query optimizer | `Expressions`, `RowOps`, `Plans`, `Optimizer`, `OptimizerShape`, `OptimizerGaps`, `JoinKeyGaps`, `JoinBinding` |
| buffer pool and LRU-K eviction | `LruK`, `PoolTheory`, `BufferPool` |
| heap files, slotted pages and visibility | `SlottedPage`, `Visibility`, `HeapRows`, `HeapHistory`, `HeapFile` (with `HeapList`), `HeapScan` |
| page directory and allocation, and the pool over them | `Directory`, `PageStore` |
| tuple layout | `TupleLayout` |

Run `dafny verify dfyconfig.toml` in this directory.

## How the parts are modelled

**Index.** Pages live in a store by id. The invariant is kept page by page: a ghost table gives each live page the key
range routing sends to it and its height. While a separator is pending between a split and its parent, parents see a
second table in which the two halves are still one; every step of the split cascade moves that discrepancy one level
up, and the last step closes it. The class `BTree.Index` carries the tree and the map it stands for; every method says
what it does to that map. `EntryPage` and `IndexPages` prove the page overlays on arrays of bytes against the same
abstract pages.

**Optimizer.** Plans have a row-list semantics over SQL's three-valued logic (sections 7.6 and 8.12 of
ISO/IEC 9075:1992); sort is stable. Base tables, comparison, sort order, aggregates and data changes are parameters, so
the results hold for all of them. The repository holds no executor: the meaning of a physical operator is the one
its name promises. A column index past the end of a row reads as NULL. The theorems state conditions under
which the optimizer keeps the rows: `Movable` for pushdown, and `HashExact` for each join. `Movable` suffices; predicates
outside it may still be harmless, and `OptimizerGaps` says for the failing forms (LIKE, BETWEEN, outer joins of each
kind, projections, updates and deletes) exactly when, with concrete plans that go wrong. The planner puts a WHERE filter
below an update or a delete, so only a plan built by hand has one above. `HashExact` is what an inner join needs and no more;
`JoinKeyGaps` gives it in terms of the columns named, and `JoinBinding` shows what the binder makes of USING and NATURAL.

**Buffer pool.** Calls run one at a time, so the branches that only a concurrent loader can reach are not there. The ghost
`view` is what was last written to each page. A page changed through a guard and never marked dirty is `touched`; it
may revert when its frame is evicted, and nothing else ever does. A fetch by logical id of a page
the directory does not know fails after it has taken a frame and published the id; the model keeps that leak. File
headers are fetched by place, under the id in the header; they are in no directory, and the ids of loaded pages extend the
directory to an injective naming. Two headers with the same id break it (`PoolTheory.TwoHeadersClash`). `PageStore` puts
the pool on top of the disk manager that issues ids and places.

**Heap.** `HeapRows` says what insert, get, delete and scan mean on lists of tuples and what transactions observe over
runs. `HeapHistory` says who reads a record after any run from who created and who deleted it. `HeapFile` does the
operations on byte buffers linked by page headers.

**Directory.** The second tree reuses the theory of the first, keeps the whole path, never merges, and rewrites entries
in place. `DiskManager` adds the two counters behind `new_page`.

## Where the code and its comments differ

- `visibility.rs` describes ReadUncommitted as always visible; the code hides tuples deleted by this or an earlier
  transaction, and so does the model.
- `write_field` says a null write zeroes the field; it only sets the null bit. It says a string is refused; the null bit
  has been cleared by then (`TupleLayout.RefusedWriteIff`).
- `page/header.rs` notes a header of 24 bytes; its fields make 16, which is what the overlays use.
- A scan with an end key stops before its buffer is drained when a leaf is cut short (`BTreeScan.OutComplete`).
- USING binds only columns one table alone has, and NATURAL compares such columns with themselves; neither compares
  columns of the same name across the tables (`JoinBinding`).
- `load_page_as_unevictable` notes that the pin count never goes below 1. The counter is one byte: with 256 pins it
  wraps to 0 (`PoolTheory.PinWrapIff`).
- An XMAX of 0 stands for "not deleted", so a delete by transaction 0 succeeds and changes nothing
  (`HeapHistory.DeleteByZero`).
- `write_field` writes as many bytes as the value's own type has, whatever the type of the column.

## Model

| member | source | states |
|---|---|---|
| SortedEntries.FoundIsHasKey | src/page/overlays/index/btree_leaf.rs:279-300 | The slot search reports a hit exactly when some entry of the sorted run carries the key |
| SortedEntries.InsertSortedOk | src/page/overlays/index/btree_leaf.rs:452-489 | Inserting a key not yet there keeps the run sorted and makes exactly that key present in addition |
| SortedEntries.RemoveAtOk | src/page/overlays/index/btree_leaf.rs:492-512 | Removing a slot keeps the run sorted and takes exactly that key away |
| PageOps.Rebuild | src/accessor/btree.rs:262-295 | Re-inserting a sorted run entry by entry into an empty page never meets the full or the duplicate error and gives the same run |
| PageOps.Absorb | src/accessor/btree.rs:875-897 | Re-inserting a right sibling's entries behind the left one's never errs and gives the concatenation |
| BTreeTheory.RouteOk | src/page/overlays/index/btree_inner.rs:236-268 | In any valid tree, routing a key leads to a child whose key range holds it, one level lower: every descent ends at a leaf of equal depth |
| BTreeTheory.OneParent | src/accessor/btree.rs:233-380 | No sharing: a page hangs below one parent and in one slot of it |
| BTreeShape.OneTree | src/accessor/btree.rs:183-380 | The live pages form a tree: every page but the root hangs below exactly one live page, in exactly one slot, and the root below none |
| BTreeSteps.InsertLeafOk | src/accessor/btree.rs:711-726 | A leaf with room takes a fresh key: the whole-tree invariant holds for the map with exactly that pair added |
| BTreeSteps.DeleteLeafOk | src/accessor/btree.rs:966-990 | Removing a leaf slot: the invariant holds for the map without exactly that key |
| BTreeSteps.SplitLeafOk | src/accessor/btree.rs:233-308 | Splitting a full leaf around a fresh key adds that pair, gives two non-empty halves separated strictly inside the old range, and leaves one separator pending |
| BTreeSteps.SplitLeafEven | src/accessor/btree.rs:233-308 | A full leaf and one entry more split into 127 entries that stay and 127 that move, none lost, the separator being the least that moves |
| BTreeSteps.SplitLinksOk | src/accessor/btree.rs:265-305 | After a split every leaf's next and prev links again name its neighbours in key order, across parents |
| BTreeSteps.AddSepOk | src/accessor/btree.rs:497-509 | A parent with room that takes the pending separator completes the tree; the separator is neither a duplicate nor out of place |
| BTreeSteps.SplitInnerOk | src/accessor/btree.rs:321-380 | Splitting a full inner page resolves the pending separator and leaves the pushed-up one pending a level higher |
| BTreeSteps.SplitInnerEven | src/accessor/btree.rs:321-380 | A full inner page and one separator more split into 127 that stay, 127 that move and one pushed up, whose child becomes the fresh page's leftmost one |
| BTreeSteps.NewRootOk | src/accessor/btree.rs:183-206 | A new root above the two halves of the old root completes the tree, all leaves at equal depth |
| BTreeInsert.CascadeOk | src/accessor/btree.rs:485-529 | However many full ancestors split, the cascade ends in a valid tree for the same map |
| BTreeInsert.CascadeStops | src/accessor/btree.rs:400-469 | Ancestors above a page that is not full play no part in the cascade |
| BTreeInsert.HeldInNumbers | src/accessor/btree.rs:400-469 | The held pages are those from the last one on the path with fewer than 253 separators |
| BTreeInsert.EarlyReleaseHarmless | src/accessor/btree.rs:400-529 | Releasing every ancestor above the deepest safe page gives the very page store that holding the whole path gives |
| BTreeInsert.GrowsIffAllFull | src/accessor/btree.rs:485-529 | The root changes if and only if every inner page on the path is full |
| BTreeInsert.ParentReady | src/accessor/btree.rs:490-509 | The last held page is the split page's parent, has no equal separator and, if not full, completes the tree by taking it |
| BTreeInsert.HeldAfterSplit | src/accessor/btree.rs:400-529 | After a leaf split the held pages still form the walk to the leaf and start at the root or at a page that is not full |
| BTreeMerge.MergeLeavesOk | src/accessor/btree.rs:875-918 | Merging two sibling leaves keeps the map; the table of live pages is the old one with the two leaves fused |
| BTreeMerge.MergedLinks | src/accessor/btree.rs:895-909 | Cutting the removed leaf out leaves the sibling chain of the remaining leaves exact |
| BTreeMerge.ShrinkOk | src/accessor/btree.rs:920-930 | A root without separators hands over to its only child: same map, equal depth kept |
| BTreeDelete.CandidateBorders | src/accessor/btree.rs:781-818 | The separator chosen for a merge borders the leaf: the right one of a leftmost child, else the left one; none exactly without a sibling or outside this parent |
| BTreeDelete.FusionIff | src/accessor/btree.rs:830-873 | For a leaf reached by descent a merge happens if and only if its parent has a second child and the entries fit one page; the partner is the right sibling of a leftmost child, else the left one |
| BTreeDelete.TryMergeOk | src/accessor/btree.rs:830-933 | A merge attempt keeps the map and the tree whatever it does, and every leaf but the merged-away one keeps its place with only the link to that one leading past it |
| BTreeDelete.ChainCut | src/accessor/btree.rs:884-909 | From any leaf, the chain after a merge is the old chain with exactly the removed leaf taken out |
| BTreeDelete.DeleteEntryOk | src/accessor/btree.rs:949-1001 | Deleting an entry, merge and root shrink included, leaves a tree for the map without that key, and a chain without just the merged-away leaf |
| BTreeDelete.DeleteOutcome | src/accessor/btree.rs:949-1001 | In numbers: if fewer than 126 entries are left, the parent has a second child and both fit in 253, the sibling pair becomes one leaf with the entries of both, the chain and the parent lose exactly the right one, and a root left without separators hands over to the survivor; otherwise only the entry goes |
| BTreeDelete.SelfWaitIff | src/accessor/btree.rs:966-998 | While it holds the leaf's latch a delete asks for it again if and only if fewer than 126 entries remain and the parent has another child |
| BTreeScan.ChainListsLeaves | src/accessor/btree.rs:553-663 | Following next links from a leaf lists exactly the leaves from its range on, each once, in key order |
| BTreeScan.WholeChain | src/accessor/btree.rs:553-663 | From the leaf of key 0 the chain is all leaves |
| BTreeScan.LoadKeeps | src/accessor/btree.rs:615-646 | Loading a leaf buffers exactly its entries within the start and end keys |
| BTreeScan.LoadCut | src/accessor/btree.rs:633-640 | Loading reports `done` exactly when a considered entry lies beyond the end key |
| BTreeScan.OutSound | src/accessor/btree.rs:553-663 | A scan yields only stored pairs within the bounds, in strictly ascending key order |
| BTreeScan.OutComplete | src/accessor/btree.rs:584-663 | A scan yields every stored pair within the bounds if and only if it is not cut short by the end key with two or more entries buffered |
| BTreeScan.CutShortIff | src/accessor/btree.rs:584-663 | That happens if and only if some live leaf the scan may reach holds two entries within the bounds and one beyond the end key |
| BTreeScan.NeverCut | src/accessor/btree.rs:553-663 | With no end key, or one no stored key exceeds, no leaf is cut short |
| BTreeScan.EndKeyDropsEntry | src/accessor/btree.rs:584-594 | Concrete loss: one leaf with keys 1, 2, 3 scanned up to key 2 yields key 1 only |
| BTree.Index.constructor | src/accessor/btree.rs:676-690 | An empty index is a valid tree for the empty map if and only if its page counter is past the null id 0 |
| BTree.FirstInsertIff | src/accessor/btree.rs:676-690 | The root leaf the first insert makes is found again, as a tree of that one pair, if and only if its page id is not 0 |
| BTree.Index.FindLeaf | src/accessor/btree.rs:63-100 | The descent ends at the live leaf whose range holds the key |
| BTree.Index.FindLeafWithPath | src/accessor/btree.rs:106-144 | As the plain descent, with the path from the root recorded |
| BTree.Index.FindLeafForWrite | src/accessor/btree.rs:400-469 | The held pages start at the deepest inner page on the path with fewer than 253 separators; none are held above a leaf with fewer than 252 entries |
| BTree.Index.SplitLeaf | src/accessor/btree.rs:233-308 | A duplicate is refused before any page is written; otherwise the store becomes that of the leaf split |
| BTree.Index.SplitInner | src/accessor/btree.rs:321-380 | The store becomes that of the inner split |
| BTree.Index.InsertIntoAncestors | src/accessor/btree.rs:485-529 | The loop over held ancestors performs the cascade and ends in a valid tree for the goal map; its separator inserts never err |
| BTree.Index.Insert | src/accessor/btree.rs:676-729 | A fresh key adds exactly that pair; a key already there is refused with nothing changed; the pages are those of an insert that held every page of the descent from the root to the leaf of the key |
| BTree.Index.Get | src/accessor/btree.rs:738-760 | The answer is the map's |
| BTree.Index.FindMergeCandidate | src/accessor/btree.rs:781-818 | The chosen separator borders the leaf: the right one of a leftmost child, else the left one; none exactly without a sibling or outside this parent |
| BTree.Index.TryMergeLeaf | src/accessor/btree.rs:830-933 | The state becomes that of the specified merge with the sibling the parent names, root shrink included, or stays as it is when there is no sibling or no room; the map never changes |
| BTree.Index.MergePages | src/accessor/btree.rs:875-918 | Moving entries, relinking the right sibling and dropping the separator is the leaf merge |
| BTree.Index.Delete | src/accessor/btree.rs:949-1001 | A pair goes exactly when key and value both match; otherwise an error and nothing changes; whether two leaves are joined, which, and what every page then holds is the case split of `BTreeDelete.DeleteOutcome`, and the chain loses just the merged-away leaf |
| IndexScan.ScanState.constructor | src/accessor/btree.rs:553-580 | What the stream will yield is a sound slice of the map, complete if and only if no leaf holds two entries within the bounds and one beyond the end key |
| IndexScan.ScanState.Next | src/accessor/btree.rs:583-663 | Each poll yields the head of what remains and leaves its tail; nothing is yielded exactly when nothing remains |
| IndexScan.LoadLeaf | src/accessor/btree.rs:615-646 | The loop over one leaf computes the buffered entries and the `done` flag of the load function |
| EntryPage.FindSlot | src/page/overlays/index/btree_leaf.rs:279-300 | Binary search over the bytes finds the slot and the hit of the decoded sorted run |
| EntryPage.InsertEntry | src/page/overlays/index/btree_leaf.rs:452-489 | On raw bytes: the decoded run becomes the sorted insert, or the full or duplicate error leaves all bytes alone; header bytes other than the count and bytes past the last entry stay |
| EntryPage.DeleteEntry | src/page/overlays/index/btree_leaf.rs:492-512 | On raw bytes: the decoded run loses exactly the slot, or an index error leaves all bytes alone; the rest of the page stays |
| EntryPage.ShiftedIsInsert | src/page/overlays/index/btree_leaf.rs:467-489 | Shifting the tail right by one entry and writing the new one is the sorted insert on the decoded run |
| EntryPage.RemovedIsRemove | src/page/overlays/index/btree_leaf.rs:492-512 | Shifting the tail left over a slot is removal from the decoded run |
| EntryPage.SetPayload | src/page/overlays/directory/leaf.rs:467-479 | Rewriting an entry's payload changes that entry and no other byte |
| EntryPage.HeaderWriteKeeps | src/page/overlays/index/btree_leaf.rs:386-432 | Writing header fields behind the count leaves every entry as it was |
| IndexPages.Capacities | src/page/overlays/index/btree_leaf.rs:41-54 | 253 entries fit a leaf and 254 an inner page, and no more |
| IndexPages.LeafInBytes | src/page/overlays/index/btree_leaf.rs:76-111 | A leaf in numbers: count at byte 16, links at 20 and 24, and from byte 40 on 16-byte entries of a key, a page and a slot, little endian |
| IndexPages.InnerInBytes | src/page/overlays/index/btree_inner.rs:71-98 | An inner page in numbers: count at byte 16, leftmost child at 20, and from byte 24 on 16-byte separators of a key and a page, little endian |
| IndexPages.InitLeaf | src/page/overlays/index/btree_leaf.rs:353-368 | A fresh leaf decodes to no entries and null links, with its id and type in the header |
| IndexPages.InitInner | src/page/overlays/index/btree_inner.rs:341-364 | A fresh inner page decodes to its leftmost child and no separators |
| IndexPages.Lookup | src/page/overlays/index/btree_leaf.rs:303-310 | Looking a key up on the bytes gives the decoded page's record, or none |
| IndexPages.InsertRecord | src/page/overlays/index/btree_leaf.rs:452-489 | Inserting a record on the bytes is inserting it into the decoded leaf, errors included; links untouched |
| IndexPages.DeleteRecord | src/page/overlays/index/btree_leaf.rs:492-512 | Deleting a slot on the bytes is deleting it from the decoded leaf; links untouched |
| IndexPages.SetNext | src/page/overlays/index/btree_leaf.rs:417-419 | Setting the next link changes nothing else of the decoded leaf |
| IndexPages.SetPrev | src/page/overlays/index/btree_leaf.rs:422-424 | Setting the prev link changes nothing else of the decoded leaf |
| IndexPages.FindChild | src/page/overlays/index/btree_inner.rs:236-268 | Routing on the bytes gives the child of the largest separator not above the key, the leftmost child if there is none |
| IndexPages.InsertSeparator | src/page/overlays/index/btree_inner.rs:428-461 | Inserting a separator on the bytes is inserting it into the decoded inner page, errors included |
| IndexPages.DeleteSeparator | src/page/overlays/index/btree_inner.rs:464-484 | Deleting a separator on the bytes is deleting it from the decoded inner page |
| IndexPages.SameKeyIff | src/accessor/btree.rs:33-38 | Two byte keys collide if and only if their first eight bytes, zero padded, agree |
| IndexPages.KeyIsNumber | src/accessor/btree.rs:33-38 | A key is the number its first eight bytes, zero padded, spell little endian |
| IndexPages.KeyBytesRoundTrip | src/accessor/btree.rs:33-44 | The bytes a scan reports for a key give that key back, and eight bytes come back from their key |
| Expressions.CollectSeesAll | src/optimizer/optimizer.rs:567-621 | The collected column indices are all the columns read exactly when none sits below a LIKE |
| Expressions.ShiftMovesAll | src/optimizer/optimizer.rs:623-652 | Re-indexing moves every column by the offset exactly when none sits below a BETWEEN or LIKE |
| Expressions.EvalLeft | src/optimizer/optimizer.rs:80-94 | An expression over left columns has the same value on a joined row as on its left part |
| Expressions.EvalRight | src/optimizer/optimizer.rs:80-94 | A re-indexed plain expression over right columns has the same value on the right row alone |
| Expressions.ConjoinAfterSplit | src/optimizer/optimizer.rs:536-565 | Splitting a predicate and conjoining the parts gives the same three-valued result |
| Expressions.AllTruthIsAllTrue | src/optimizer/optimizer.rs:536-565 | A conjunction is true exactly when every part is |
| Expressions.SplitFully | src/optimizer/optimizer.rs:536-548 | Splitting leaves no conjunction among the parts |
| Expressions.Kleene | src/parser/ast.rs:257-278 | AND is the lesser and OR the greater of its sides with NULL between false and true, and NOT turns that order around |
| Expressions.Shorthands | src/parser/ast.rs:196-208 | BETWEEN is two comparisons joined by AND, and IS NOT NULL is the opposite of IS NULL |
| Expressions.SplitInto | src/optimizer/optimizer.rs:536-548 | The recursive push into the out vector appends exactly the conjuncts, in order |
| Expressions.ConjoinAll | src/optimizer/optimizer.rs:550-565 | The loop builds the conjunction of its list |
| RowOps.KeepJoin | src/optimizer/optimizer.rs:74-110 | Filtering a join by a predicate that splits by sides is joining the filtered sides and filtering by the joint rest |
| RowOps.JoinRows | src/optimizer/physical.rs:102-121 | For every kind, a join yields exactly the accepted pairs and, for a preserved side, its unmatched rows beside NULLs, each once, by left row and then by right row |
| RowOps.KeepDistinct | src/optimizer/optimizer.rs:153-159 | A filter commutes with DISTINCT, order included |
| RowOps.DistinctOk | src/optimizer/physical.rs:176-179 | DISTINCT keeps every row and keeps it once |
| RowOps.DistinctSnoc | src/optimizer/physical.rs:176-179 | A row seen before leaves DISTINCT as it was and a new one goes last: first occurrences in order |
| RowOps.KeepSort | src/optimizer/optimizer.rs:129-136 | A filter commutes with a stable sort |
| RowOps.SortAscending | src/optimizer/optimizer.rs:441-534 | The stable sort yields the same rows in ascending order |
| RowOps.SortStable | src/optimizer/optimizer.rs:441-534 | Rows that tie under the sort keys keep the order they came in |
| RowOps.TopKIsTake | src/optimizer/optimizer.rs:441-534 | Streaming the best k rows gives the first k of the full stable sort |
| RowOps.LimitIsSlice | src/optimizer/physical.rs:169-173 | LIMIT and OFFSET cut out one stretch: row i of the result is row offset + i, for as many rows as there are or as the limit says |
| Plans.LimitByIntegers | src/optimizer/physical.rs:156-173 | With integer LIMIT and OFFSET that stretch is rows[offset..offset + limit]; a negative one sets no bound |
| Plans.RunWide | src/planner/plan.rs:12-20 | Every row a well-formed plan yields has its schema's width |
| Plans.RouteSplits | src/optimizer/optimizer.rs:74-94 | On every joined row the routed predicates together are true exactly when all the original ones are |
| Plans.KeepProject | src/optimizer/optimizer.rs:64-72 | Predicates over columns a projection hands through may be applied below it |
| Plans.PushKeepsRows | src/optimizer/optimizer.rs:36-191 | For all data, operators and plans whose predicates cross joins, projections and changes only where that is meaning-preserving, pushdown yields the same row list, order included |
| Optimizer.ExtractKeys | src/optimizer/optimizer.rs:701-770 | The loop over the conjuncts sorts them into the key pairs and the residual of the specification |
| Optimizer.ExtractColumnKeys | src/optimizer/optimizer.rs:701-770 | The loop over USING or NATURAL equalities computes the same key lists |
| Optimizer.KeysApart | src/optimizer/optimizer.rs:270-292 | Keys compared across the two rows, the right ones re-indexed, match exactly when they match on the joined row |
| Optimizer.HashAcceptsSame | src/optimizer/optimizer.rs:701-770 | A hash join on extracted keys that read left columns first and right ones second, plus residual, accepts exactly the row pairs the condition accepts, NULL keys included |
| Optimizer.OrientedIsExact | src/optimizer/optimizer.rs:701-770 | Keys of any form that read left columns first and right ones second, with nothing dropped, make the hash join exact on rows of all widths |
| Optimizer.ToPhysicalKeepsRows | src/optimizer/optimizer.rs:193-389 | The physical plan yields the logical plan's rows, in order, whenever each hash join it builds accepts what the join condition accepts |
| Optimizer.FuseKeepsRows | src/optimizer/optimizer.rs:441-534 | Fusing a sort under a limit into a bounded top-N keeps the rows and their order; that it is fused is `OptimizerShape.FusesAll` |
| Optimizer.OptimizeKeepsRows | src/optimizer/optimizer.rs:29-34 | Pushdown, physical planning and fusion together keep the rows, order included, for movable plans whose hash joins are exact; the shape of the result is `OptimizerShape.OptimizedShape` |
| OptimizerShape.PushSinks | src/optimizer/optimizer.rs:36-191 | After pushdown every filter tests one conjunct and stands as low as it may: none is left above a projection, sort, distinct, update or delete, and above a join only if it reads both sides |
| OptimizerShape.ScanFilter | src/optimizer/optimizer.rs:210-235 | A filter directly on a scan keeps its conjuncts in their order, regrouped to the left |
| OptimizerShape.SiftExact | src/optimizer/optimizer.rs:701-770 | The join keys are the two sides of exactly the conjuncts that equate columns, none in common, in order; the residual is the others |
| OptimizerShape.HashedIff | src/optimizer/optimizer.rs:272-300 | A join ON a condition becomes a hash join if and only if one of its conjuncts equates columns |
| OptimizerShape.FusesAll | src/optimizer/optimizer.rs:441-534 | No limit with a count is left on a sort; every top-N has the keys, count and offset of the pair it stands for, and the rest of the plan is as before |
| OptimizerShape.FusedOneWay | src/optimizer/optimizer.rs:441-534 | Those two facts determine the fused plan |
| OptimizerShape.OptimizedShape | src/optimizer/optimizer.rs:29-34 | An optimized plan is the physical plan of one whose filters have sunk, with no limit with a count left on a sort |
| Optimizer.RoutePredicates | src/optimizer/optimizer.rs:74-94 | The routing loop computes the left, right and remaining predicates of the specification |
| Optimizer.PushPredicates | src/optimizer/optimizer.rs:36-191 | The recursive method with its local vectors computes the specified pushed-down plan |
| OptimizerGaps.LikePushIff | src/optimizer/optimizer.rs:573-621 | Pushing a LIKE of column i against a constant below a join keeps the rows for all data and operators if and only if i is a left column |
| OptimizerGaps.BetweenPushIff | src/optimizer/optimizer.rs:631-652 | Pushing a BETWEEN of column i against constants below a join keeps the rows for all data and operators if and only if i is a left column or the left side has no columns |
| OptimizerGaps.OuterPushIff | src/optimizer/optimizer.rs:74-111 | Pushing a conjunct that means the same on one side below a join of any kind keeps the rows if and only if the join brings back no rows of the other side or the conjunct is true of every row of its own |
| OptimizerGaps.IsNullPushIff | src/optimizer/optimizer.rs:74-111 | Pushing IS NULL of a column below a join of any kind is right if and only if the join preserves no rows of the other side |
| OptimizerGaps.JoinPushIff | src/optimizer/optimizer.rs:74-111 | For all inputs and all join conditions, filters may sink below a join if and only if neither can turn a dropped match into a row the join brings back |
| OptimizerGaps.ProjectionPushIff | src/optimizer/optimizer.rs:64-72 | A projection of arbitrary expressions lets every equality test of column i against a constant through unchanged if and only if it hands column i through |
| OptimizerGaps.IsNullProjectionIff | src/optimizer/optimizer.rs:64-72 | IS NULL of column i passes a projection that picks columns if and only if column i stays in place |
| OptimizerGaps.ChangePushIff | src/optimizer/optimizer.rs:160-179 | Any predicate above an update or a delete may be pushed below it if and only if it is true of every report row and of every row to be changed |
| OptimizerGaps.MovableIsSafe | src/optimizer/optimizer.rs:36-191 | The condition of the pushdown theorem suffices for all data and operators at once |
| OptimizerGaps.BetweenLosesRows | src/optimizer/optimizer.rs:631-652 | Concrete plan and data for which a BETWEEN over the right table loses a row |
| OptimizerGaps.LikeLosesRows | src/optimizer/optimizer.rs:573-621 | Concrete plan and data for which a LIKE over the right table loses a row |
| OptimizerGaps.OuterJoinGainsRows | src/optimizer/optimizer.rs:74-111 | Concrete plan and data for which IS NULL above a left join changes the rows |
| OptimizerGaps.RightJoinGainsRows | src/optimizer/optimizer.rs:74-111 | The same above a right join, from its left side |
| OptimizerGaps.FullJoinGainsRows | src/optimizer/optimizer.rs:74-111 | The same above a full join, from either side |
| OptimizerGaps.ProjectionLosesRows | src/optimizer/optimizer.rs:64-72 | Concrete plan and data for which a predicate above a projection changes the rows |
| OptimizerGaps.UpdateGainsRows | src/optimizer/optimizer.rs:160-179 | Concrete plan and data for which a predicate above an update or a delete lets a report through that it should drop |
| JoinKeyGaps.ColumnKeysIff | src/optimizer/optimizer.rs:701-770 | A hash join whose keys are columns, under any ON, USING or NATURAL condition, is exact if and only if every pair names a left column first and a right one second and the dropped conjuncts follow from the rest, or else the condition accepts no row pair at all |
| JoinKeyGaps.EqualitiesIff | src/optimizer/optimizer.rs:701-770 | For a condition of column equalities only, in whatever number and orientation, the hash join is exact if and only if each names a left column first and a right one second |
| JoinKeyGaps.ColumnEqualityIff | src/optimizer/optimizer.rs:701-770 | For one ON equality of two columns the hash join is exact if and only if the first is a left column and the second a right one |
| JoinKeyGaps.InnerJoinIff | src/optimizer/optimizer.rs:270-292 | The physical plan of an inner join yields its rows for all tables if and only if its hash join accepts what the condition accepts |
| JoinKeyGaps.ReversedEqualityLosesRows | src/optimizer/optimizer.rs:701-770 | Concrete join, right column written first, whose hash join loses its row |
| JoinBinding.BindUsingAll | src/binder/binder.rs:648-687 | The loop over the USING names binds the specified equalities, or stops at the first name that does not resolve |
| JoinBinding.BindNaturalAll | src/binder/binder.rs:688-739 | The loop over the right columns binds the specified equalities and skips names that do not resolve |
| JoinBinding.UsingSharedFails | src/binder/binder.rs:648-687 | USING over a column both tables have never binds: with both tables in scope the name is ambiguous |
| JoinBinding.BoundNatural | src/binder/binder.rs:688-739 | NATURAL binds one equality for each right column whose name occurs nowhere else in scope: that column with itself |
| JoinBinding.UsingJoinIff | src/binder/binder.rs:648-687 | A USING condition that binds is planned as an exact hash join if and only if it names no column |
| JoinBinding.NaturalJoinIff | src/binder/binder.rs:688-739 | A NATURAL join is planned as bound if and only if every right column's name occurs again in scope |
| JoinBinding.NaturalIgnoresLeft | src/binder/binder.rs:688-739 | As bound, a NATURAL condition compares nothing across the tables: the left row makes no difference to it |
| JoinBinding.NaturalLosesRows | src/binder/binder.rs:688-739 | Concrete tables whose NATURAL join is bound as b = b and whose hash join loses the row |
| LruK.VictimUnique | src/buffer/evictor/lruk_evictor.rs:31-68 | The full-trace LRU-K choice is unique, so no iteration order of the map can matter |
| LruK.Evictor.FindVictim | src/buffer/evictor/lruk_evictor.rs:31-68 | For any iteration order: a victim is returned exactly when a candidate exists, and it is the full-trace LRU-K choice |
| LruK.Evictor.RecordAccess | src/buffer/evictor/lruk_evictor.rs:70-85 | The access joins the full trace; the stored history stays the last k of it; eviction flags do not change |
| LruK.Evictor.SetEvictable | src/buffer/evictor/lruk_evictor.rs:87-97 | Only that frame's flag changes; an unknown frame appears with an empty history |
| LruK.Evictor.RemoveFrame | src/buffer/evictor/lruk_evictor.rs:99-102 | The frame and its trace are forgotten, all others kept |
| LruK.Decides | src/buffer/evictor/lruk_evictor.rs:41-64 | Comparing history fronts with the running bests is comparing frames by the full-trace rule |
| PoolTheory.UnloadSynced | src/buffer/impl/buffer_pool.rs:203-240 | Evicting a frame keeps maps and contents consistent; every page not left unmarked is on disk as last written |
| PoolTheory.LoadSynced | src/buffer/impl/buffer_pool.rs:352-392 | Loading a page shows what was last written to it and keeps maps and contents consistent |
| PoolTheory.CreateSynced | src/buffer/impl/buffer_pool.rs:730-764 | A new page's zeroed frame is consistent once counted as changed and not yet marked |
| PoolTheory.WriteSynced | src/buffer/impl/guard.rs:108-112 | Changing a frame changes what that page reads and no other page |
| PoolTheory.FlushSynced | src/buffer/impl/buffer_pool.rs:800-820 | Writing one dirty frame back keeps contents consistent |
| PoolTheory.CleanOnDisk | src/buffer/impl/buffer_pool.rs:766-824 | With no frame dirty the disk holds every page not left unmarked as last written |
| PoolTheory.SurvivesIff | src/buffer/impl/buffer_pool.rs:203-240 | A page's last written bytes survive eviction if and only if they were marked dirty or the disk already held them |
| PoolTheory.AttemptMappedIff | src/buffer/impl/buffer_pool.rs:297-394 | A fetch leaves the page maps one bijection if and only if the directory knows the page: on a read error the frame stays taken and published |
| PoolTheory.LoadMappedIff | src/buffer/impl/buffer_pool.rs:544-590 | Loading a page keeps the page maps one bijection if and only if its id is not loaded already |
| PoolTheory.LoadPlacedIff | src/buffer/impl/buffer_pool.rs:552-585 | It keeps the naming of pages injective if and only if the directory has neither the id nor the place with another partner |
| PoolTheory.OneNaming | src/buffer/impl/buffer_pool.rs:297-693 | Two loaded pages, or a loaded page and a directory entry, share an id exactly when they share a place |
| PoolTheory.HeaderAgreesIff | src/buffer/impl/buffer_pool.rs:552-585 | A file header may be loaded exactly under an id the directory does not know |
| PoolTheory.TwoHeadersClash | src/page/overlays/file_header/index.rs:170-176 | Two file headers with the same page id: loading the second while the first is loaded breaks the bijection |
| PoolTheory.RegisterPlacedIff | src/buffer/impl/buffer_pool.rs:695-764 | A new page's fresh id and place keep the naming injective if and only if no loaded page goes by that id |
| PoolTheory.PinWrapIff | src/buffer/impl/buffer_pool.rs:134-139 | Counting one more guard keeps the one-byte pin counter exact if and only if it was below 255 |
| PoolTheory.MappedTwice | src/buffer/impl/buffer_pool.rs:297-693 | A page is in the logical map exactly when it is in the physical map, at the same frame |
| PoolTheory.HeaderInBytes | src/page/header.rs:50-55 | The id a page carries is the number in bytes 8 to 11 |
| BufferPool.BufferPool.constructor | src/buffer/impl/buffer_pool.rs:44-70 | A new pool is consistent and every page reads as on disk |
| BufferPool.BufferPool.IncrPin | src/buffer/impl/buffer_pool.rs:134-139 | The one-byte pin counter goes up by one and wraps at 256; leaving zero makes the frame unevictable |
| BufferPool.BufferPool.DecrPin | src/buffer/impl/buffer_pool.rs:141-146 | The one-byte pin counter goes down by one and wraps below zero; leaving one makes the frame evictable |
| BufferPool.BufferPool.Evict | src/buffer/impl/buffer_pool.rs:177-243 | Fails exactly when the evictor has no candidate; otherwise unloads the LRU-K victim, which is loaded and unpinned; held frames stay |
| BufferPool.BufferPool.FindFrame | src/buffer/impl/buffer_pool.rs:300-330 | A vacant frame, after one eviction if needed; fails exactly when no frame is vacant and none is a candidate |
| BufferPool.BufferPool.FetchPageWrite | src/buffer/impl/buffer_pool.rs:297-394 | The frame behind the new write guard shows what was last written to the page, across any evictions and reloads; it fails exactly for want of a frame or, having leaked one, for an id the directory does not know |
| BufferPool.BufferPool.Leak | src/buffer/impl/buffer_pool.rs:334-369 | A fetch of an unknown id takes a frame out of the vacant set, pins it once and publishes it under the id before its read fails; nothing undoes that, and the pool is no longer consistent |
| BufferPool.BufferPool.FetchPublished | src/buffer/impl/buffer_pool.rs:303-311 | A fetch that finds an id published takes that frame as it is: a leaked id yields its stale bytes and stays leaked |
| BufferPool.BufferPool.FetchPageRead | src/buffer/impl/buffer_pool.rs:396-488 | As for writing, and for the accesses: a hit adds the current time to those of the frame that already held the page, a miss fills a frame that has none, and no other frame gains one |
| BufferPool.BufferPool.FetchPageAtLocWrite | src/buffer/impl/buffer_pool.rs:490-593 | Any page on disk, file headers included, is shown as last written and fails only for want of a frame; the pool stays consistent exactly if it was loaded, or the id in its header is not loaded by then and the directory agrees |
| BufferPool.BufferPool.FetchPageAtLocRead | src/buffer/impl/buffer_pool.rs:595-693 | As for writing by place, and for the accesses as for reading by id: a hit adds the current time to the frame that held the place, a miss fills a frame that has none |
| BufferPool.BufferPool.NewPage | src/buffer/impl/buffer_pool.rs:695-764 | The new page is registered and reads as zeros; no other page changes but an unmarked one; held frames keep page and bytes and permanent pins stay; it stays registered when no frame is found |
| BufferPool.BufferPool.WritePage | src/buffer/impl/guard.rs:108-112 | The page behind the guard now reads the new bytes, and no other page changes |
| BufferPool.BufferPool.MarkDirty | src/buffer/impl/buffer_pool.rs:152-163 | The page will be written back; no content changes |
| BufferPool.BufferPool.Downgrade | src/buffer/impl/guard.rs:140-146 | The write guard becomes a read guard with the same pin and no recorded access |
| BufferPool.BufferPool.Drop | src/buffer/impl/guard.rs:23-27 | The guard's pin is taken back and nothing else changes; with the last pin gone a frame read while loaded becomes a candidate for eviction, if k > 0 |
| BufferPool.BufferPool.EvictableIff | src/buffer/evictor/lruk_evictor.rs:31-67 | A frame can be evicted if and only if it holds an unpinned page that was read while loaded, and k > 0 |
| BufferPool.BufferPool.LoadPageAsUnevictable | src/buffer/impl/buffer_pool.rs:275-284 | The page ends loaded with one more permanent pin and no guard left; no other permanent pin, held frame or page changes; it fails exactly when the page is not loaded and no frame can be had |
| BufferPool.BufferPool.PermanentStays | src/buffer/impl/buffer_pool.rs:275-284 | A frame with a permanent pin is loaded, and neither vacant nor a candidate for eviction |
| BufferPool.BufferPool.FlushAllDirty | src/buffer/impl/buffer_pool.rs:766-824 | No frame stays dirty and the disk alone holds every page as last written, unmarked ones apart |
| SlottedPage.NoOverlap | src/page/overlays/table/heap_page.rs:70-78 | On every well-formed page the slot array and the tuples never overlap and distinct tuples occupy disjoint bytes |
| SlottedPage.PageInBytes | src/page/overlays/table/heap_page.rs:13-27 | A heap page in numbers: slot count, data offset and next page at bytes 16, 18 and 20, and from byte 24 on 4-byte slots of an offset and a length, little endian |
| SlottedPage.InsertOk | src/page/overlays/table/heap_page.rs:178-207 | The new tuple gets the next slot and every earlier slot keeps its number and bytes |
| SlottedPage.Init | src/page/overlays/table/heap_page.rs:136-142 | An initialised page is well formed and empty, its identity header untouched |
| SlottedPage.GetData | src/page/overlays/table/heap_page.rs:98-111 | On a well-formed page a read fails only for its index and else gives the tuple of that slot; on any page it gives the bytes of the slot, or the error, the header and slot imply |
| SlottedPage.Insert | src/page/overlays/table/heap_page.rs:178-207 | Succeeds exactly when the gap holds tuple and slot; then appends the tuple, else changes no byte |
| SlottedPage.Overwrite | src/page/overlays/table/heap_page.rs:163-175 | Writing inside one tuple changes that tuple's bytes and nothing else of the page |
| SlottedPage.Delete | src/page/overlays/table/heap_page.rs:212-222 | Deleting a slot empties it and renumbers or changes no other |
| Visibility.FreshTuple | src/accessor/visibility.rs:33-46 | A new tuple carries its creator, no deleter and its data |
| Visibility.StampedTuple | src/accessor/visibility.rs:33-46 | Stamping XMAX changes XMAX and nothing else |
| HeapHistory.RunByHistory | src/accessor/heap.rs:154-346 | After any run a record stands as its history says: its creator, its data, and the first delete by a transaction that saw it |
| HeapHistory.GetByHistory | src/accessor/visibility.rs:53-70 | `get` answers from that history alone: the data for a transaction the rule lets see it, else the error with creator and deleter |
| HeapHistory.ScanByHistory | src/accessor/visibility.rs:53-70 | So does a scan: the record is among its rows exactly then, with its data |
| HeapHistory.DeleteByHistory | src/accessor/heap.rs:289-346 | A delete succeeds exactly on a record the transaction sees and nobody has deleted, and answers which of the two failed |
| HeapHistory.AfterInsert | src/accessor/visibility.rs:53-70 | After an insert by w and any run without a delete of it, every dirty reader and every t with t.id >= w.id, w included, reads the data by get and scan; every other one misses it |
| HeapHistory.AfterDelete | src/accessor/visibility.rs:53-70 | After a delete by d nobody with t.id >= d.id sees the record at any level, and those before d see it as before |
| HeapHistory.DeleteByZero | src/accessor/visibility.rs:53-70 | A delete by transaction 0 succeeds and leaves the record standing as it was |
| HeapRows.InsertOk | src/accessor/heap.rs:154-250 | An insert names an empty place, fills it and moves nothing else; it fails exactly when no page, not even a fresh one, can hold the tuple |
| HeapRows.FitsIff | src/accessor/heap.rs:154-250 | A page takes a tuple if and only if 24 bytes, four per tuple and all tuples stay within 4096 |
| HeapRows.GoesToFirst | src/accessor/heap.rs:154-250 | The first page in list order with room takes the tuple, behind those it has |
| HeapRows.GoesInFront | src/accessor/heap.rs:154-250 | Only without such a page a fresh one is put in front of the list, if it can hold the tuple at all |
| HeapRows.DeleteOk | src/accessor/heap.rs:302-346 | A delete succeeds exactly on a visible, undeleted tuple and stamps only that one; otherwise nothing changes |
| HeapRows.ScanIsGet | src/accessor/heap.rs:40-140 | A scan yields a record id with some bytes exactly when `get` returns those bytes for it |
| HeapRows.ScanOnce | src/accessor/heap.rs:40-140 | No record id is yielded twice |
| HeapRows.RunSucceeds | src/accessor/heap.rs:302-346 | Over any run of inserts and deletes a record id keeps naming the same data; XMIN never changes and XMAX changes at most once, from 0 |
| HeapRows.SnapshotStable | src/accessor/visibility.rs:53-70 | Under ReadCommitted or Snapshot no run of inserts and deletes by larger ids changes the list a transaction scans |
| HeapRows.DirtyReadIff | src/accessor/visibility.rs:53-70 | Under ReadUncommitted such a run leaves the scan unchanged if and only if it adds no tuple |
| HeapList.PrependOk | src/accessor/heap.rs:196-246 | Putting a fresh page in front keeps the linked list exact |
| HeapFile.InsertInto | src/page/overlays/table/heap_page.rs:178-207 | A page of the file takes a tuple exactly when it fits, and stays packed |
| HeapFile.HeapFile.Get | src/accessor/heap.rs:259-287 | Reading through page buffers gives the specified bytes or the specified error |
| HeapFile.HeapFile.Delete | src/accessor/heap.rs:302-346 | Stamping through page buffers is the specified delete, outcome and rows |
| HeapFile.HeapFile.TryPage | src/accessor/heap.rs:181-206 | One step of the walk appends to the page exactly when the tuple fits, else yields the next page with nothing changed |
| HeapFile.HeapFile.InsertFresh | src/accessor/heap.rs:208-249 | A fresh page is linked to the old first page and becomes the first; a tuple too large even for it fails and leaves the list alone |
| HeapFile.HeapFile.Insert | src/accessor/heap.rs:154-250 | Walking the list and updating page buffers is the specified first-fit insert, record id and error included |
| HeapScan.HeapScan.constructor | src/accessor/heap.rs:40-78 | The stream has the specified row list before it |
| HeapScan.HeapScan.Next | src/accessor/heap.rs:80-139 | Each poll yields the head of what remains, and nothing exactly at the end |
| HeapScan.HeapScan.LoadPage | src/accessor/heap.rs:96-136 | Buffering a page's visible tuples changes nothing of what remains to be yielded |
| Directory.PlaceKeptIff | src/page/overlays/directory/leaf.rs:131-147 | A place on disk comes back as stored if and only if it is page aligned and its page number fits 32 bits |
| Directory.StorePlaceIff | src/storage/directory/directory.rs:509-611 | Storing a place makes the page live there, and no other page move, if and only if the place is page aligned and its page number fits 32 bits |
| Directory.UpdateLeafOk | src/storage/directory/directory.rs:584-611 | Rewriting an entry in place changes that key's value in the map and keeps the tree |
| Directory.PageDirectory.Lookup | src/storage/directory/directory.rs:493-507 | The answer is the directory map's, or not found |
| Directory.PageDirectory.AddPage | src/storage/directory/directory.rs:509-582 | A new id gains its place whatever splits, as given exactly if it is storable; an id already there is refused with nothing changed |
| Directory.PageDirectory.AddSplitting | src/storage/directory/directory.rs:297-489 | Splitting with the whole path kept adds exactly the pair |
| Directory.PageDirectory.UpdatePage | src/storage/directory/directory.rs:584-611 | A known id gets the new place, as given exactly if it is storable; an unknown one is refused with nothing changed |
| Directory.PageDirectory.DeletePage | src/storage/directory/directory.rs:613-640 | A known id goes; an unknown one is refused with nothing changed |
| Directory.IssueOk | src/storage/allocator/allocator.rs:73-88 | The next id and the next end-of-file page have never been issued, and stay apart from all issued ones |
| Directory.DiskManager.NewPage | src/storage/disk.rs:275-291 | Until a counter overflows a new page gets an id and a place no page has ever had, and is found there |
| Directory.DiskManager.OnePlaceEach | src/storage/disk.rs:207-291 | No two logical pages share a physical location |
| Directory.DiskManager.HeadersApart | src/storage/allocator/allocator.rs:73-88 | No page the directory knows lies at the start of a file, where its header is |
| PageStore.PageStore.NewPage | src/buffer/impl/buffer_pool.rs:695-764 | Over the disk manager a new page's id and place are always new to the pool, whatever file headers are loaded |
| PageStore.PageStore.FetchHeader | src/accessor/btree.rs:160-214 | Fetching a file header by place shows it as last written; the store stays in order exactly if its id has not been issued and is not loaded for another file |
| DirectoryPages.Lookup | src/page/overlays/directory/leaf.rs:329-336 | Looking a page up on the bytes gives the decoded leaf's place, or none |
| DirectoryPages.LeafInBytes | src/page/overlays/directory/leaf.rs:81-115 | A directory leaf in numbers: count at byte 16, links at 20 and 24, and from byte 40 on 16-byte entries of a page id, a file and a page number, little endian |
| DirectoryPages.InsertPlace | src/page/overlays/directory/leaf.rs:484-521 | Inserting on the bytes is inserting into the decoded leaf, errors included; links untouched |
| DirectoryPages.UpdatePlace | src/page/overlays/directory/leaf.rs:559-575 | Updating on the bytes rewrites exactly that entry, or reports it missing with no byte changed |
| DirectoryPages.DeleteByKey | src/page/overlays/directory/leaf.rs:547-555 | Deleting on the bytes removes exactly that entry, or reports it missing with no byte changed |
| TupleLayout.FieldsApart | src/databox/layout.rs:22-56 | Fields are aligned, clear of header and bitmap, inside the fixed part and pairwise disjoint |
| TupleLayout.FieldsTight | src/databox/layout.rs:22-56 | A field stands at the first multiple of its width behind the field before it, the first one behind a 16-byte header and one bit per column |
| TupleLayout.ByPositionOk | src/databox/layout.rs:24 | Sorting by position orders the columns and neither drops nor adds one |
| TupleLayout.From | src/databox/layout.rs:22-56 | The computed maps place exactly the given columns, in position order |
| TupleLayout.CodecRoundTrip | src/databox/layout.rs:103-182 | Every value of a fixed-width type, negative ones included, comes back from its bytes |
| TupleLayout.Ranges | src/databox/layout.rs:58-79 | The widths of the types, by the numbers a field can hold |
| TupleLayout.WriteField | src/databox/layout.rs:133-184 | The in-place writes compute the specified tuple for a value of any type; a string or an unknown column is refused |
| TupleLayout.WriteThenRead | src/databox/layout.rs:86-184 | A value of the column's type, or NULL, written to a field is what the field reads |
| TupleLayout.ReadString | src/databox/layout.rs:86-131 | A string column that is not null reads the bytes from the offset its four bytes name for the length they name, or nothing if they lead past the tuple |
| TupleLayout.ReadNumber | src/databox/layout.rs:86-131 | An integer column that is not null reads its bytes as a little-endian number, in two's complement if signed |
| TupleLayout.NullInBits | src/databox/layout.rs:91-96 | A column is null if and only if bit i mod 8 of byte 16 + i / 8 is set |
| TupleLayout.OthersKept | src/databox/layout.rs:86-184 | A column the written bytes do not reach reads as before, provided string bodies lie beyond the fixed part |
| TupleLayout.NarrowSpares | src/databox/layout.rs:133-184 | A value no wider than its column never reaches another one |
| TupleLayout.OthersKeptIff | src/databox/layout.rs:133-184 | A write leaves every other column of every tuple as it was if and only if its bytes end before each field behind it and, if there is a string column, within the fixed part |
| TupleLayout.WideValueOverwrites | src/databox/layout.rs:133-184 | Concrete overwrite: an 8-byte value written to the first of two 4-byte columns is read back from the second |
| TupleLayout.RefusedWriteIff | src/databox/layout.rs:133-184 | A refused string write leaves the tuple unchanged if and only if the field was not null |

## Left out

- Interleaving: each call is one atomic step. The source reads the root id before latching the root and re-checks pins
  during eviction; its linearizability is not claimed.
- BTree.Index.Delete: releases the leaf before trying to merge; the source still holds the leaf's latch there and waits
  for it again in exactly the cases `BTreeDelete.SelfWaitIff` names.
- Overflow of the 32-bit page counters and of the evictor's clock: the calls require room below the limit.
- Dirty marking by the index: the page store is one where writes stick, while several write paths of the index never
  mark their page dirty. The two parts are therefore not composed.
- Index pages of the wrong type, and other corruption errors that no valid state can produce.
- BTree.Index.Insert: runs on abstract pages whose entries carry an abstract value; `IndexPages` proves each page
  operation on bytes against those pages, but the class is not itself run over page buffers.
- Plans.PushKeepsRows: requires `Movable`, which is sufficient and not necessary: a compound predicate with a misplaced
  column may happen not to depend on it. Exact conditions are given form by form in `OptimizerGaps`.
- Keys that are not plain columns: `Optimizer.Oriented` is then a sufficient condition for an exact hash join only.
- Expression forms IN, CASE, CAST, functions and subqueries, and the type and nullability annotations on expressions.
- Index-scan selection: the index lookup it needs always answers none, so the path is never taken.
- Binder and planner: plans are taken as well-formed input (`WellFormed`), except for how USING and NATURAL are bound;
  there, names are compared as they are, without folding case.
- BufferPool.BufferPool.FetchPageWrite: that an unpinned frame can always be evicted is not promised, because only reads
  of loaded pages are recorded as accesses. A guard that stands in the way makes the source wait; here it must be gone.
  The same holds for the other fetches. Disk calls fail only for pages the directory does not know.
- BufferPool.BufferPool.NewPage: requires an id no loaded page goes by, which `PoolTheory.RegisterPlacedIff` shows to be
  exactly what keeps the pool consistent; `PageStore.PageStore.NewPage` discharges it.
- PageStore.PageStore.FetchHeader: for writing; reading differs as it does in the pool.
- BufferPool.BufferPool.LoadPageAsUnevictable: requires a page the directory knows; the source panics otherwise.
- `load_page_loc_as_unevictable`: the same steps as by logical id.
- HeapFile.HeapFile.Get: a record id that names a page of another file is not modelled; a page of this file left off the
  list by a failed insert reads as having no tuple.
- HeapFile.HeapFile.Insert: the file header page is the field `firstPage`, and page buffers keep what is written to them.
- HeapScan.HeapScan.Next: the file does not change between the polls of one scan.
- Directory.PageDirectory.AddPage: pages are abstract tree pages here, with `DirectoryPages` below them; the cache, the
  dirty set and reopening a directory file, whose page counter is saved only when the root changes, are not modelled.
- Directory inner pages as bytes: laid out and searched like the index's inner pages.
- Deallocation and `register_file`: the first does nothing, the second sets a counter the caller vouches for.
- TupleLayout.CodecRoundTrip: floats are opaque bit patterns; strings are their bytes, without UTF-8 replacement.
- WAL, commit and rollback, the server, the parser and the catalog cache.
