# SQLite storage and expression core: a verified model

The server under `src/` embeds SQLite 2/3 in `src/db_sqlite`. This project models the parts of it where a
mistake loses or corrupts data, and proves what those parts are for. Every file stands for one component;
`dafny verify dfyconfig.toml` checks the whole project.

| files | component | source |
|---|---|---|
| Keys, RollbackLog, RedBlackTree, RbtreeDatabase, RbtreeRuns | in-core database: red-black trees linked in place, cursors that survive deletions, undo log with a nested checkpoint | `btree_rb.c` |
| SqlMachine, SqlExpr, ExprCompiler | stack machine, meaning of scalar expressions, compiler from expressions to jumps and labels | `vdbe.c`, `expr.c`, `vdbeaux.c`, `insert.c` |
| Spans, PageSpace | allocation of space on a b-tree page, byte by byte | `btree.c` |
| Packing, Balance | distribution of cells over sibling pages | `btree.c` |
| PointerMap, AutoVacuum | page references, their map, and moving pages to shrink a file | `btree.c` |
| Bytes, Varint, Payload | numbers, cells, and payload on chains of overflow pages | `util.c`, `btree.c` |
| HashKeys, HashTable | hash table whose buckets are runs of one doubly linked list | `hash.c`, `util.c` |
| BtreeCursor | search and iteration in a b-tree | `btree.c` |
| FreeList | trunks and leaves of the list of free pages | `btree.c` |
| SharedCache | transactions and table locks of handles that share a b-tree | `btree.c` |
| Encoder | strings without zero and quote bytes | `encode.c` |
| Pattern | LIKE and GLOB | `func.c`, `utf.c` |

The code that works in place is modelled in place: nodes, pages, buckets and programs are classes and arrays
that methods change, and each method is proved against a function or relation of the old state. What those
functions promise is proved as lemmas.

## Assumptions

- Memory can be had, and reading, writing and journalling pages succeed. What locking the file came to is a
  parameter of `SharedCache.BtShared.BeginTrans`.
- Cells handed to the page allocator have at least four bytes and a size that depends on their own bytes;
  `CellSizes.SizesSuit` and `CellSizes.ChildNotCounted` show that cells of every format do.
- Pages have 500 to 65536 usable bytes, and at most 32768 in the page allocator, the largest size `pager.h` allows.
- Local payload limits are as `btree.c` sets them up (lines 1921-1941), with a lower limit that is not negative.
- In auto-vacuum all of a page is usable and the file ends before the pending-byte page.
- Cells take two to a page in index trees and one to a page in leaf-data trees when siblings are rebalanced;
  `Packing.FourCellsToAPage` shows that the limits of the code keep to that, `Packing.TwoCellsMustFit` that no
  weaker bound would do.
- Comparison of SQL values, affinities, collations, scalar functions and the reading of text as a number are
  parameters. CASE with a base needs a comparison whose equality is symmetric.
- Patterns and strings end at their first zero byte, and in a pattern no ASCII character is followed by a
  continuation byte of UTF-8.

## Findings

Properties that the code does not have, each with an input and the exact condition under which it does.

- A rollback is silent about the undo operations that an open read cursor refuses (`ReadCursorDefeatsRollback`).
  It restores the database if and only if no table being read had changed (`UndoLockedRestores`, `Rollback`).
- AND, OR and NOT read their operands as integers when they give a value and as real numbers when they give a
  condition, so 0.5 AND 1 is true in WHERE and 0 in SELECT (`HalfIsTrueAndFalse`). Where the operands agree,
  the two readings agree if and only if the integer reading is harmless there (`AgreesExactly`,
  `AgreesThroughoutExactly`).
- In a CHECK constraint the depth of the row on the stack goes wrong after BETWEEN, after a null test used as a
  value and in CASE, and another column is read (`BetweenMisread`, `IsNullMisread`). A column is read right for
  every row if and only if the depth is not off (`DriftExactly`), and the code of an expression reads every
  column where it lies if and only if the expression passes the test `Straight` (`StraightExactly`,
  `StraightCondExactly`). The verdict of a constraint that fails the test can still be right by accident, when
  the column read instead holds a value that leads to the same answer; when that happens depends on the values
  in the row and is not characterised.
- A string key with a zero byte before its last byte, or without a given length, compares as equal to keys with
  other hashes (`Impostors`); a string key can be found under every key equal to it if and only if it is plain
  (`PlainExactly`).
- A rollback by a handle that does not write makes the shared structure forget another handle's open statement
  (`ForgottenStatement`); it stays known if and only if no statement was open or the handle was the writer
  (`Rollback` in SharedCache).
- The comments of `encode.c` (lines 104-122, 165-174) say that the offset is added, that an escaped quote is
  0x01 0x03 and that decoding a malformed string gives -1. The code subtracts, writes 0x01 0x28 and never
  returns -1. The model follows the code.

## Model

| member | source | states |
|---|---|---|
| Keys.KeyCompareOrder | src/db_sqlite/btree_rb.c:182-190 | comparison is zero exactly on equal keys, negative exactly if the first key is byte-wise lexicographically smaller, and antisymmetric |
| Keys.LessTransitive | src/db_sqlite/btree_rb.c:182-190 | the order the comparison defines is transitive |
| Keys.InsertSorted | src/db_sqlite/btree_rb.c:791-814 | an entry put where a failed search ended keeps the entries sorted, and the contents are the old map with that key added |
| Keys.RemoveSorted | src/db_sqlite/btree_rb.c:953-1019 | entries stay sorted when one is taken out, and the contents are the old map without exactly that key |
| Keys.ReplaceSorted | src/db_sqlite/btree_rb.c:829-853 | new data for an entry changes the contents at its key only |
| RollbackLog.UndoConcat | src/db_sqlite/btree_rb.c:1384-1396 | executing two logs spliced together is executing the first and then the second |
| RollbackLog.LogInverse | src/db_sqlite/btree_rb.c:595-610 | pushing the inverse of a change keeps a log able to lead back to the same database |
| RollbackLog.UndoLockedAgrees | src/db_sqlite/btree_rb.c:1317-1359 | with refusals on read-locked tables the undo still runs, restores every other table and leaves the locked ones alone |
| RollbackLog.UndoLockedRestores | src/db_sqlite/btree_rb.c:1317-1359 | the undo restores the whole database if and only if no read-locked table had changed |
| RollbackLog.UntouchedUndo | src/db_sqlite/btree_rb.c:1317-1359 | no refusal happens if no table the log rewrites is read-locked |
| RollbackLog.HeldOpen | src/db_sqlite/btree_rb.c:668-688 | no open cursor stands in the way of the undo if and only if every table held open existed at the beginning |
| RollbackLog.ReadCursorDefeatsRollback | src/db_sqlite/btree_rb.c:1331-1337 | finding: an insertion into a table with an open read cursor survives the rollback |
| RedBlackTree.BtRbTree.LeftRotate | src/db_sqlite/btree_rb.c:205-222 | rotation relinks exactly the three nodes involved, keeps the parent links and the sequence of entries |
| RedBlackTree.BtRbTree.RightRotate | src/db_sqlite/btree_rb.c:237-254 | the mirror image |
| RedBlackTree.BtRbTree.InsertFixLeft | src/db_sqlite/btree_rb.c:450-481 | a red node under a red left child whose uncle is black: one or two rotations and the tree has no red pair left there |
| RedBlackTree.BtRbTree.InsertFixRight | src/db_sqlite/btree_rb.c:482-492 | the mirror image |
| RedBlackTree.BtRbTree.InsertBalancing | src/db_sqlite/btree_rb.c:407-496 | from a tree whose only fault is one red node below a red one the loop ends in a red-black tree with the same entries |
| RedBlackTree.BtRbTree.DeleteFixLeft | src/db_sqlite/btree_rb.c:520-547 | one pass for an extra black on a left child: absorbed, or moved to the parent |
| RedBlackTree.BtRbTree.DeleteFixRight | src/db_sqlite/btree_rb.c:548-576 | the mirror image |
| RedBlackTree.BtRbTree.DeleteBalancing | src/db_sqlite/btree_rb.c:513-580 | from a tree one black short at one place the loop ends in a red-black tree with the same entries |
| RedBlackTree.BtRbTree.NodesMatchEntries | src/db_sqlite/btree_rb.c:320-399 | nodes and entries correspond one to one, in search order |
| RedBlackTree.BtRbTree.AttachLeaf | src/db_sqlite/btree_rb.c:791-808 | a red leaf linked where the search ended puts its entry at exactly that place of the sequence |
| RedBlackTree.BtRbTree.InsertNode | src/db_sqlite/btree_rb.c:791-814 | linking and rebalancing give a red-black tree whose contents are the old map with the new key added |
| RedBlackTree.BtRbTree.SpliceOut | src/db_sqlite/btree_rb.c:993-1017 | unlinking a node with at most one child and rebalancing give a red-black tree without exactly its entry |
| RedBlackTree.BtRbTree.Search | src/db_sqlite/btree_rb.c:871-903 | the search ends on the key, or on its neighbour with the needed child slot empty |
| RedBlackTree.BtRbTree.Rewrite | src/db_sqlite/btree_rb.c:850-852 | overwriting a node changes its entry and nothing else |
| RedBlackTree.BtRbTree.Leftmost | src/db_sqlite/btree_rb.c:1071-1086 | walking left ends on the first entry of the subtree |
| RedBlackTree.BtRbTree.Rightmost | src/db_sqlite/btree_rb.c:1088-1103 | walking right ends on the last entry of the subtree |
| RedBlackTree.BtRbTree.ClimbLeft | src/db_sqlite/btree_rb.c:1119-1130 | climbing from a right subtree ends on the next entry, or nowhere after the last |
| RedBlackTree.BtRbTree.ClimbRight | src/db_sqlite/btree_rb.c:1146-1157 | climbing from a left subtree ends on the previous entry, or nowhere before the first |
| RbtreeDatabase.RbtCursor.Moveto | src/db_sqlite/btree_rb.c:871-903 | the cursor is on the key, or beside the slot where it belongs; the skip flag is cleared |
| RbtreeDatabase.RbtCursor.First | src/db_sqlite/btree_rb.c:1071-1086 | the cursor is on the first entry; the result says whether there is one |
| RbtreeDatabase.RbtCursor.Last | src/db_sqlite/btree_rb.c:1088-1103 | the cursor is on the last entry; the result says whether there is one |
| RbtreeDatabase.RbtCursor.Next | src/db_sqlite/btree_rb.c:1111-1136 | the cursor moves to the following entry, or stays if a deletion has already put it there |
| RbtreeDatabase.RbtCursor.Previous | src/db_sqlite/btree_rb.c:1138-1163 | the cursor moves to the preceding entry, or stays if a deletion has already put it there |
| RbtreeDatabase.RbtCursor.CheckReadLocks | src/db_sqlite/btree_rb.c:160-170 | refuses if and only if another cursor on the table is read-only; otherwise every other cursor of the table loses its place |
| RbtreeDatabase.RbtCursor.Insert | src/db_sqlite/btree_rb.c:745-856 | refused under a foreign read cursor and then without effect; otherwise contents are the old map updated at the key, the inverse is logged, and the cursor is on the record |
| RbtreeDatabase.RbtCursor.Remove | src/db_sqlite/btree_rb.c:953-1019 | the entry under the cursor is gone; Next then yields the first larger key and Previous the first smaller one, through the skip flag |
| RbtreeDatabase.RbtCursor.Delete | src/db_sqlite/btree_rb.c:920-1021 | the same as a database operation: refused under a foreign read cursor, otherwise the map loses exactly that key and the inverse is logged |
| RbtreeDatabase.SuccessorCopied | src/db_sqlite/btree_rb.c:959-976 | overwriting an entry by its successor and dropping the successor drops the entry |
| RbtreeDatabase.Rbtree.constructor | src/db_sqlite/btree_rb.c:612-638 | a new database holds the empty table 2, no transaction and empty logs |
| RbtreeDatabase.Rbtree.LogRollbackOp | src/db_sqlite/btree_rb.c:595-610 | the operation goes to the front of the log of the innermost open level |
| RbtreeDatabase.Rbtree.AddTable | src/db_sqlite/btree_rb.c:585-589 | a new empty table appears, and nothing else changes |
| RbtreeDatabase.Rbtree.CreateTable | src/db_sqlite/btree_rb.c:644-663 | the new table has a number never used before, and its removal is logged |
| RbtreeDatabase.Rbtree.ClearTable | src/db_sqlite/btree_rb.c:1026-1069 | the table is empty afterwards, leaf by leaf, and the log restores every record |
| RbtreeDatabase.Rbtree.DropTable | src/db_sqlite/btree_rb.c:668-688 | the table is gone, and the log restores it with all its records |
| RbtreeDatabase.Rbtree.OpenCursor | src/db_sqlite/btree_rb.c:714-735 | a new cursor is first on the list of its table |
| RbtreeDatabase.Rbtree.CloseCursor | src/db_sqlite/btree_rb.c:1209-1223 | the cursor leaves the list of its table |
| RbtreeDatabase.Rbtree.BeginTrans | src/db_sqlite/btree_rb.c:1264-1272 | begins only outside a transaction; the contents then are what a rollback has to restore |
| RbtreeDatabase.Rbtree.Commit | src/db_sqlite/btree_rb.c:1287-1296 | both logs are empty and the contents stay |
| RbtreeDatabase.Rbtree.BeginCkpt | src/db_sqlite/btree_rb.c:1373-1382 | begins only in a transaction without a checkpoint |
| RbtreeDatabase.Rbtree.CommitCkpt | src/db_sqlite/btree_rb.c:1384-1396 | the joined log still leads back to the beginning of the transaction |
| RbtreeDatabase.Rbtree.RunOp | src/db_sqlite/btree_rb.c:1324-1349 | one undo operation changes the contents as the abstract log says, refusals included |
| RbtreeDatabase.Rbtree.ExecuteRollbackList | src/db_sqlite/btree_rb.c:1317-1359 | the list changes the contents as the abstract undo of the whole list says |
| RbtreeDatabase.Rbtree.Rollback | src/db_sqlite/btree_rb.c:1361-1371 | if no table created meanwhile is still open: every table that nobody reads is as at BeginTrans, and everything is if and only if no read table had changed |
| RbtreeDatabase.Rbtree.RollbackCkpt | src/db_sqlite/btree_rb.c:1398-1407 | the same for BeginCkpt; if the contents are restored the transaction can still be rolled back |
| RbtreeRuns.Perform | src/db_sqlite/btree_rb.c:644-1407 | one call of a client: which calls are allowed, the contents after each, and the invariant every call keeps |
| RbtreeRuns.RunAndRollback | src/db_sqlite/btree_rb.c:1264-1371 | for every list of calls with nested checkpoints: the rollback is possible unless a table created meanwhile is open, restores every table not being read, and restores everything if none is |
| RbtreeRuns.RunAndRollbackCkpt | src/db_sqlite/btree_rb.c:1373-1407 | for every list of calls within a checkpoint: the contents at BeginCkpt come back and the transaction can still be rolled back |
| SqlMachine.Deterministic | src/db_sqlite/vdbe.c:1537-1830 | two final states reached from the same state are equal |
| SqlMachine.Chain | src/db_sqlite/vdbe.c:1537-1830 | runs of the machine compose |
| SqlExpr.ConditionIsTruthOfValue | src/db_sqlite/expr.c:1876-1888 | if every operand of AND, OR and NOT reads the same as integer and as real, the condition is the truth of the value |
| SqlExpr.AgreesExactly | src/db_sqlite/vdbe.c:1630-1790 | given operands that agree: condition and value agree if and only if the integer reading is harmless at AND, OR, NOT |
| SqlExpr.AgreesThroughoutExactly | src/db_sqlite/vdbe.c:1630-1790 | all conditions within an expression agree if and only if the integer reading is harmless at every AND, OR and NOT |
| SqlExpr.LogicalIsCrisp | src/db_sqlite/expr.c:1876-1888 | over comparisons, null tests and BETWEEN the two readings always agree |
| SqlExpr.HalfIsTrueAndFalse | src/db_sqlite/vdbe.c:1630-1790 | finding: 0.5 AND 1 is true as a condition and false as a value |
| SqlExpr.AlignedValue | src/db_sqlite/expr.c:1489-1508 | where ckOffset is the true depth at every column read, compiled code computes the value of the expression |
| SqlExpr.AlignedCondition | src/db_sqlite/expr.c:1890-2080 | the same for conditions |
| SqlExpr.DriftExactly | src/db_sqlite/expr.c:1489-1508 | a column is read right for every row if and only if ckOffset is not off |
| SqlExpr.StraightExactly | src/db_sqlite/expr.c:1464-1827 | the code of an expression reads every column where it lies if and only if the expression passes a syntactic test |
| SqlExpr.StraightCondExactly | src/db_sqlite/expr.c:1890-2080 | the same for conditions |
| SqlExpr.CountableIsStraight | src/db_sqlite/expr.c:1890-2080 | conditions without CASE, null tests as values or columns as BETWEEN bounds pass that test |
| SqlExpr.BetweenMisread | src/db_sqlite/expr.c:1938-1961 | finding: CHECK (c0 BETWEEN 0 AND c1) accepts the row (5, 3) |
| SqlExpr.IsNullMisread | src/db_sqlite/expr.c:1640-1652 | finding: CHECK ((c0 IS NULL) = 1) refuses the row (NULL, 7) |
| SqlExpr.FreeCondition | src/db_sqlite/expr.c:1890-2080 | a condition without columns of a checked row decides by its three-valued meaning on any stack, an empty one included |
| ExprCompiler.CodedCompare | src/db_sqlite/expr.c:1568-1585 | operand code followed by a comparison pushes the three-valued result and nothing else |
| ExprCompiler.CodedBetween | src/db_sqlite/expr.c:1732-1747 | the eight-part code of BETWEEN as a value pushes the conjunction of its two comparisons |
| ExprCompiler.CodedCase | src/db_sqlite/expr.c:1754-1796 | the code of CASE pushes the result of the first arm taken |
| ExprCompiler.JumpBoth | src/db_sqlite/expr.c:1897-1903 | skipping the second operand with NULL read the other way round is three-valued AND (or OR) |
| ExprCompiler.JumpEither | src/db_sqlite/expr.c:1904-1908 | jumping from either operand is three-valued OR (or AND) |
| ExprCompiler.JumpBetweenTrue | src/db_sqlite/expr.c:1938-1961 | both exits of the BETWEEN test leave the stack as it was, and it jumps as its meaning says |
| ExprCompiler.JumpBetweenFalse | src/db_sqlite/expr.c:2050-2072 | the same for jumping when false |
| ExprCompiler.JumpsByMeaning | src/db_sqlite/expr.c:1890-2080 | jump code of a condition outside a CHECK constraint decides by its three-valued meaning |
| ExprCompiler.Parse.ResolveLabel | src/db_sqlite/vdbeaux.c:164-171 | the label stands for the present address |
| ExprCompiler.Parse.ResolveP2Values | src/db_sqlite/vdbeaux.c:235-286 | every operand that was a label is its address, and nothing else changes |
| ExprCompiler.Parse.CodeCase | src/db_sqlite/expr.c:1754-1796 | CASE with and without base, with and without ELSE, pushes its value |
| ExprCompiler.Parse.ExprCode | src/db_sqlite/expr.c:1464-1827 | for every expression: code is appended that pushes its value and nothing else, whatever program it ends up in |
| ExprCompiler.Parse.ExprIfTrue | src/db_sqlite/expr.c:1890-1969 | for every condition: the code jumps exactly when it is true, or NULL and jumpIfNull is set, and leaves the stack as it was |
| ExprCompiler.Parse.ExprIfFalse | src/db_sqlite/expr.c:1979-2080 | the same for false |
| ExprCompiler.Parse.CheckConstraint | src/db_sqlite/insert.c:869-879 | a row whose condition is false halts the statement; true and NULL pass |
| ExprCompiler.CompileCheck | src/db_sqlite/insert.c:869-879 | a finished program for a straight condition passes exactly the rows for which it is not false; in general it decides by the columns it really reads |
| ExprCompiler.CompileCondition | src/db_sqlite/expr.c:1890-2080 | a finished program for any condition without columns of a checked row comes to its end exactly when the three-valued condition says so |
| Spans.Uncovered | src/db_sqlite/btree.c:6213-6258 | disjoint spans leave uncovered exactly the bytes that their sizes leave |
| PageSpace.FragmentsCounted | src/db_sqlite/btree.c:6213-6258 | what the integrity checker counts: no byte of the content area has two uses, and those without one are as many as the fragment counter says |
| PageSpace.FreeAndUsed | src/db_sqlite/btree.c:1385-1403 | header, pointers, cells and free bytes add up to the page |
| PageSpace.MergeCounted | src/db_sqlite/btree.c:1281-1286 | the gap closed by merging two freeblocks is covered by the fragment counter |
| PageSpace.Page.FirstFit | src/db_sqlite/btree.c:1207-1221 | the first freeblock that is large enough |
| PageSpace.Page.DefragmentPage | src/db_sqlite/btree.c:1125-1172 | all cells keep their bytes and their order, and the free bytes are one gap |
| PageSpace.Page.AllocateSpace | src/db_sqlite/btree.c:1186-1238 | fails exactly if the page is too full or has overflow cells; otherwise the bytes are apart from every cell and the page stays tiled |
| PageSpace.Page.FreeSpace | src/db_sqlite/btree.c:1248-1300 | the bytes become free, freeblocks ascend at least 4 bytes apart, and no other cell changes |
| PageSpace.Page.InitPage | src/db_sqlite/btree.c:1340-1412 | an accepted page has an ascending freeblock list; a well-formed page is accepted with its true list and free total |
| PageSpace.Page.ZeroPage | src/db_sqlite/btree.c:1418-1442 | an empty, well-formed page |
| PageSpace.Page.FindCell | src/db_sqlite/btree.c:873-878 | the address of a cell |
| PageSpace.Page.FindOverflowCell | src/db_sqlite/btree.c:884-899 | the cell with that number when overflow cells are counted in |
| PageSpace.Page.InsertCell | src/db_sqlite/btree.c:4118-4193 | the list of cells, overflow cells included, gains exactly the new cell at its place; it overflows if and only if there is no room or something has overflowed already |
| PageSpace.Page.DropCell | src/db_sqlite/btree.c:4077-4099 | the list of cells loses exactly that cell |
| Packing.PackGreedily | src/db_sqlite/btree.c:4664-4678 | every page but the last is closed because the next cell does not fit, though the size kept is 2 too large |
| Packing.EvenPair | src/db_sqlite/btree.c:4690-4709 | evening out one boundary leaves both pages non-empty and within the page |
| Packing.MoveLast | src/db_sqlite/btree.c:4690-4709 | moving a last cell keeps both sizes right |
| Packing.Pack | src/db_sqlite/btree.c:4664-4709 | the split points ascend strictly and end at the number of cells; every page has a cell and fits |
| Packing.TwoCellsMustFit | src/db_sqlite/btree.c:4664-4709 | for index trees the bound is sharp: two equal cells can be packed only if both fit on one page |
| Packing.FourCellsToAPage | src/db_sqlite/btree.c:1921-1941 | cells of which three fit on a page are small enough |
| Balance.Gather | src/db_sqlite/btree.c:4585-4646 | all cells and dividers in the order of the tree, and the parent without the dividers |
| Balance.SortPages | src/db_sqlite/btree.c:4763-4782 | the same page numbers in ascending order |
| Balance.ChoosePages | src/db_sqlite/btree.c:4722-4747 | pages kept, taken and freed add up |
| Balance.Distribute | src/db_sqlite/btree.c:4797-4892 | the pages and dividers assembled hold the same entries and children in the same order |
| Balance.PagesSeparated | src/db_sqlite/btree.c:4797-4892 | every key left of a divider is below it (not above it in leaf-data trees), every key right of it is above it |
| Balance.PagesFit | src/db_sqlite/btree.c:4797-4892 | every page assembled has a cell and fits |
| Balance.BalanceNonroot | src/db_sqlite/btree.c:4389-4929 | the sequence of entries and child pages under the parent is unchanged, pages fit and are not empty, dividers separate, and page numbers are conserved |
| PointerMap.SlotInside | src/db_sqlite/btree.c:758-760 | an entry lies within its map page, which is a map page |
| PointerMap.SlotsApart | src/db_sqlite/btree.c:758-760 | entries of different pages do not overlap |
| PointerMap.MapPagesCount | src/db_sqlite/btree.c:758-760 | how many map pages a file of n pages has |
| PointerMap.FinalSizeExact | src/db_sqlite/btree.c:2346-2348 | of the pages cut off exactly as many as are free are no map pages, and the last page kept is none |
| AutoVacuum.MoveKeepsConsistent | src/db_sqlite/btree.c:2236-2304 | after a move the pointer map is again the reference graph |
| AutoVacuum.SizesMatch | src/db_sqlite/btree.c:2346-2348 | as many free pages lie before the new end as used ones after it |
| AutoVacuum.MovedOnce | src/db_sqlite/btree.c:2236-2304 | moves compose: every page has one new number, and every reference has followed |
| AutoVacuum.Database.SetChildPtrmaps | src/db_sqlite/btree.c:2133-2167 | every page named on the page has it as parent, other entries are unchanged |
| AutoVacuum.Database.ModifyPagePointer | src/db_sqlite/btree.c:2184-2229 | the reference of that kind names the new page, all others are unchanged; it fails if and only if there is none |
| AutoVacuum.Database.RelocatePage | src/db_sqlite/btree.c:2236-2304 | the page and every reference to it have the new number, nothing else changes, and the pointer map is consistent |
| AutoVacuum.Database.FindFree | src/db_sqlite/btree.c:2387-2398 | the free list does yield a page before the new end, and loses no other such page |
| AutoVacuum.Database.AutoVacuumCommit | src/db_sqlite/btree.c:2313-2430 | fails exactly if the file ends in a map page or a root lies past the new end; otherwise no page in use lies past it, the free list is empty and the contents are the old ones renumbered |
| Varint.RoundTrip | src/db_sqlite/util.c:1142-1207 | reading what was written gives the number and its length, whatever follows |
| Varint.ValueBelow | src/db_sqlite/util.c:1171-1207 | every byte string reads as a 64-bit number |
| Varint.PutVarint | src/db_sqlite/util.c:1142-1165 | exactly the bytes of the number are written |
| Varint.GetVarint | src/db_sqlite/util.c:1171-1207 | the number at the start of the bytes, and its length |
| Varint.GetVarint32 | src/db_sqlite/util.c:1213-1233 | the same modulo 2 to the 32nd; of a ninth byte only seven bits count |
| Payload.ParseCellPtr | src/db_sqlite/btree.c:907-967 | what the bytes of a cell say about its sizes |
| Payload.LeastWaste | src/db_sqlite/btree.c:952-965 | of all splits within the limits the one chosen wastes least overflow space and takes fewest pages |
| Payload.CellStandsAlone | src/db_sqlite/btree.c:907-967 | a cell reads the same whatever follows it |
| Payload.Appended | src/db_sqlite/btree.c:3983-3991 | bytes written to the last page of a chain follow those stored so far |
| Payload.Extended | src/db_sqlite/btree.c:3975-3981 | a full chain that names another page holds the same bytes |
| Payload.Store.CopyPayload | src/db_sqlite/btree.c:2917-2960 | the bytes copied are that slice of local payload and chain together |
| Payload.Store.GetPayload | src/db_sqlite/btree.c:2882-2961 | exactly that slice of the payload stored, or an error if and only if it is out of range or missing |
| Payload.Store.AllocatePage | src/db_sqlite/btree.c:3578-3789 | a page that was not in use |
| Payload.Store.FillHeader | src/db_sqlite/btree.c:3922-3936 | the header reads as key and data size |
| Payload.Store.FillInCell | src/db_sqlite/btree.c:3902-3999 | the cell built reads as key and data over exactly the pages needed, each taken from those not in use; all other pages in use are unchanged |
| Payload.Store.FillAndGet | src/db_sqlite/btree.c:2882-2961 | round trip: any slice read from a new cell is that slice of key followed by data, and an error if and only if it is out of range |
| Payload.Store.ClearCell | src/db_sqlite/btree.c:3864-3888 | the pages of the cell and no others are free again |
| Payload.Store.FillAndClear | src/db_sqlite/btree.c:3864-3999 | filling a cell and clearing it leaves the pages in use and their bytes as they were |
| CellSizes.SizesSuit | src/db_sqlite/btree.c:989-993 | cells of every format are what the space allocator takes |
| CellSizes.ChildNotCounted | src/db_sqlite/btree.c:4850-4861 | the first four bytes of an interior cell do not affect its size, so a divider can be inserted before its child pointer is known |
| HashKeys.StrHash | src/db_sqlite/hash.c:100-109 | the shifting hash of the lower-cased bytes |
| HashKeys.BinHash | src/db_sqlite/hash.c:118-125 | the shifting hash of the bytes as signed characters |
| HashKeys.StrNICmp | src/db_sqlite/util.c:857-863 | zero exactly if the texts agree up to case until both end |
| HashKeys.EqualIsCanon | src/db_sqlite/hash.c:110-129 | keys compare as equal exactly if they have the same canonical form |
| HashKeys.HashFromCanon | src/db_sqlite/hash.c:100-129 | the hash depends on the canonical form only |
| HashKeys.Impostors | src/db_sqlite/hash.c:100-129 | finding: for every other string key there are two keys equal to it with different hashes |
| HashKeys.PlainExactly | src/db_sqlite/hash.c:100-129 | a string key can be found under every key equal to it if and only if its length is given and no byte but its last is zero |
| HashTable.MaskIsRemainder | src/db_sqlite/hash.c:219-236 | masking the hash is taking a remainder because sizes are powers of two |
| HashTable.EveryBucket | src/db_sqlite/hash.c:219-236 | every bucket can be reached |
| HashTable.RunsInsert | src/db_sqlite/hash.c:191-212 | an element put in front of its bucket keeps every bucket one run of the list |
| HashTable.RunsRemove | src/db_sqlite/hash.c:270-302 | so does taking one out |
| HashTable.KeysCounted | src/db_sqlite/hash.c:296-301 | elements and keys are equally many |
| HashTable.Hash.InsertElement | src/db_sqlite/hash.c:191-212 | the list, doubly linked, gains the element in its bucket |
| HashTable.Hash.Rehash | src/db_sqlite/hash.c:219-236 | the same elements in the new buckets |
| HashTable.Hash.FindElementGivenHash | src/db_sqlite/hash.c:242-265 | an element with an equal key, or none has one |
| HashTable.Hash.RemoveElementGivenHash | src/db_sqlite/hash.c:270-302 | the list loses exactly that element |
| HashTable.Hash.HashClear | src/db_sqlite/hash.c:50-68 | every element is given back once and the table is empty |
| HashTable.Hash.HashFind | src/db_sqlite/hash.c:308-320 | agrees with the map |
| HashTable.Hash.HashInsert | src/db_sqlite/hash.c:337-392 | inserts, overwrites and removes as the map does, and returns the old data (the new data if a copy of no bytes cannot be made) |
| HashTable.Hash.CountsKeys | src/db_sqlite/hash.c:337-392 | the count is the number of keys |
| BtreeCursor.PieceOf | src/db_sqlite/btree.c:3092-3113 | the entries below a page are one piece of the table |
| BtreeCursor.BtCursor.MoveToChild | src/db_sqlite/btree.c:3092-3113 | one page down, with the entries before it accounted for |
| BtreeCursor.BtCursor.MoveToParent | src/db_sqlite/btree.c:3140-3160 | back to the page and place that led down |
| BtreeCursor.BtCursor.MoveToRoot | src/db_sqlite/btree.c:3165-3198 | the page reached holds the whole table |
| BtreeCursor.BtCursor.MoveToLeftmost | src/db_sqlite/btree.c:3207-3220 | the leaf entry that comes first from the cell on |
| BtreeCursor.BtCursor.MoveToRightmost | src/db_sqlite/btree.c:3232-3247 | the last entry of the page |
| BtreeCursor.BtCursor.First | src/db_sqlite/btree.c:3253-3266 | the first entry, or none for an empty table |
| BtreeCursor.BtCursor.Last | src/db_sqlite/btree.c:3272-3285 | the last entry, or none for an empty table |
| BtreeCursor.BtCursor.SearchPage | src/db_sqlite/btree.c:3338-3393 | binary search on one page, with the rightmost-first probe |
| BtreeCursor.BtCursor.Moveto | src/db_sqlite/btree.c:3314-3415 | the matching entry, or the immediate predecessor (result below 0) or successor (above 0), for both kinds of trees |
| BtreeCursor.BtCursor.Next | src/db_sqlite/btree.c:3438-3496 | exactly one entry on, or the end |
| BtreeCursor.BtCursor.Previous | src/db_sqlite/btree.c:3504-3555 | exactly one entry back, or the beginning |
| BtreeCursor.BtCursor.Scan | src/db_sqlite/btree.c:3253-3496 | First and then Next visits every entry once in ascending order |
| FreeList.TakeTrunk | src/db_sqlite/btree.c:3650-3659 | a trunk without leaves taken off the list leaves a list with exactly one page less |
| FreeList.TakeLeaf | src/db_sqlite/btree.c:3732-3745 | the same for a leaf |
| FreeList.AddTrunk | src/db_sqlite/btree.c:3823-3846 | a new trunk gives a list with exactly one page more |
| FreeList.AddLeaf | src/db_sqlite/btree.c:3847-3855 | the same for a new leaf |
| FreeList.NearestLeaf | src/db_sqlite/btree.c:3715-3730 | the leaf picked is nearest to the page asked for |
| FreeList.BtShared.AllocatePage | src/db_sqlite/btree.c:3578-3789 | one page of the free set if there is one, otherwise the file grows past any map page; no page in use changes |
| FreeList.BtShared.FreePage | src/db_sqlite/btree.c:3796-3859 | the free set gains exactly the page, no trunk exceeds its limit, the count is right, no page in use changes |
| SharedCache.BtShared.BtreeIntegrity | src/db_sqlite/btree.c:1113-1117 | the assertions that guard every operation follow from the invariant |
| SharedCache.BtShared.BeginTrans | src/db_sqlite/btree.c:2065-2124 | which of success, busy, read-only comes out, and that at most one handle writes |
| SharedCache.BtShared.LeaveTrans | src/db_sqlite/btree.c:2439-2477 | the shared state follows the remaining handles |
| SharedCache.BtShared.Commit | src/db_sqlite/btree.c:2439-2477 | the handle leaves its transaction and loses its locks, the others keep theirs |
| SharedCache.BtShared.Rollback | src/db_sqlite/btree.c:2523-2559 | the same; an open statement stays known if and only if it was the handle that had it |
| SharedCache.BtShared.BeginStmt | src/db_sqlite/btree.c:2576-2586 | begins exactly in a write transaction without a statement |
| SharedCache.BtShared.EndStmt | src/db_sqlite/btree.c:2593-2621 | no statement is known afterwards |
| SharedCache.BtShared.LockBtreeWithRetry | src/db_sqlite/btree.c:1955-1969 | the file is locked, no transaction begins |
| SharedCache.BtShared.QueryTableLock | src/db_sqlite/btree.c:610-647 | grants exactly what is compatible with all locks of other handles |
| SharedCache.BtShared.LockTable | src/db_sqlite/btree.c:657-715 | the handle holds the stronger of its locks, others are unchanged, all locks stay compatible |
| SharedCache.BtShared.BtreeLockTable | src/db_sqlite/btree.c:6517-6527 | after a granted write lock no other handle has a lock on the table |
| SharedCache.BtShared.Close | src/db_sqlite/btree.c:1679-1704 | the handle is gone with its locks and its transaction |
| SharedCache.ForgottenStatement | src/db_sqlite/btree.c:2523-2559 | finding: a run after which an open statement is no longer known to the shared structure |
| Encoder.NothingForbidden | src/db_sqlite/encode.c:123-163 | the encoding contains neither zero nor quote |
| Encoder.RoundTrip | src/db_sqlite/encode.c:123-187 | decoding an encoding gives the bytes back, for every byte string and legal offset |
| Encoder.BestOffset | src/db_sqlite/encode.c:136-146 | pigeonhole: of 254 offsets one makes at most 3 in 254 bytes escape |
| Encoder.FindOffset | src/db_sqlite/encode.c:136-146 | the offset found is best, and one is always found |
| Encoder.EncodeBinary | src/db_sqlite/encode.c:123-163 | the encoding under a best offset, its length, and that it takes at most 2 + 257n/254 bytes |
| Encoder.DecodeBinary | src/db_sqlite/encode.c:175-187 | the decoded bytes, also if both buffers are the same |
| Pattern.MatchSet | src/db_sqlite/func.c:416-445 | membership in a set with ranges, inversion and a leading bracket |
| Pattern.OneAfterAll | src/db_sqlite/func.c:378-384 | a wildcard for one character after one for any sequence can take its character first |
| Pattern.Skipped | src/db_sqlite/func.c:398-409 | skipping to the next place that starts with the literal loses no match |
| Pattern.PatternCompare | src/db_sqlite/func.c:360-461 | returns 1 exactly when the declarative LIKE or GLOB relation holds, with UTF-8 characters and escape |
| Pattern.AfterAll | src/db_sqlite/func.c:377-411 | collapsed wildcards followed by the rest match exactly when the relation does somewhere |
| Pattern.PrefixPattern | src/db_sqlite/func.c:360-461 | a literal followed by a wildcard matches exactly the strings that start with it |

## Left out

- Pager, journal, files, locks of the operating system, busy handlers, failing allocation, reference counts.
- Searching the free list for one page in particular (`exact`, `btree.c:3604-3708`): while searching, the code looks at the first leaf of a trunk that may have none, so its result rests on stale bytes.
- The pending-byte page in auto-vacuum (`btree.c:2349-2354`).
- balance_quick, balance_deeper, balance_shallower and the recursion from a page to its parent; the array bound on sibling pages; page references (`aFrom`, pointer map) during rebalancing.
- Saving and restoring cursors when another handle writes, temporary cursors, and the skipping of cursors that this needs.
- The integrity checkers as code; their conditions are the specifications.
- IN, subqueries, aggregates, triggers, RAISE, CAST and name resolution in `expr.c`; affinity and collation are parameters.
- `build.c`, `alter.c`, `delete.c`, `attach.c`, `analyze.c`, `auth.c`, `copy.c`, `callback.c`, `legacy.c`, `date.c`, `md5.c`, `complete.c`: opcode emission, catalogue plumbing, floating-point dates, constant tables.
- The game server, its add-ons, sockets, console and PHP pages.
- RbtreeDatabase.Rbtree.Rollback: does not restore the next table number and the meta values, as the source does not either.
- RbtreeDatabase.Rbtree.ClearTable: does not say where cursors on the table are left; the source leaves them on freed nodes.
- RbtreeRuns.RunAndRollbackCkpt: does not say when the rollback is possible while a table is being read, because that depends on which tables the checkpoint changed; `Rollback` and `RollbackCkpt` say what is restored then.
- ExprCompiler.Parse.ExprCode: does not say what code computes when a column lies outside the stack.
- Balance.BalanceNonroot: models pages as lists of cells with an abstract size, not as bytes; PageSpace has the bytes of one page. The 4 bytes of a child pointer do not count in a size.
- AutoVacuum.Database.AllocatePage: gives any page of the free list; FreeList has the list itself.
- Payload.Store.AllocatePage: gives any page not in use, and fails only when page numbers run out.
- Payload.Store.FillInCell: when page numbers run out it leaves the chain half built, for the transaction to be rolled back, and says only that pages in use are unchanged.
- Payload.Store.GetPayload: sums of offset and length are not limited to 32 bits.
- Payload.Store.ClearCell: takes a well-formed chain; on others the source stops with an error or frees what it finds.
- HashTable.Hash.HashInsert: keys that are not plain are covered by the shape of the table and by what is found, not by the map.
- BtreeCursor.BtCursor.Moveto: keys are integers, standing for any total order.
- FreeList.BtShared.FreePage: takes fewer than 2 to the 32nd free pages.
- Encoder.DecodeBinary: takes a string whose terminator can be reached; the source runs past the end of others.
- Pattern.PatternCompare: says nothing about patterns with stray continuation bytes after ASCII characters.
