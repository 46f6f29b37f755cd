# A verified model of a small SQLite-style engine

This project models the storage engine, the SQL compiler and the virtual machine of sqllite-rust in
Dafny and proves what they do. It follows the code, not the SQLite file format it resembles: record
integers are little-endian, the record header has a column count, log frame checksums are not chained.

Run `dafny verify dfyconfig.toml` here to check everything.

| part | files |
|---|---|
| bytes, files, varints, records, values | Bytes, MemoryFile, Varint, Record, Values, Names |
| slotted pages and B-trees | Slotted, LeafPage, InteriorPage, LeafList, Tree, Btree, BtreeCursor |
| pager and write-ahead log | DbHeader, Pager, PagerRuns, Checksum, WalFormat, Wal, WalRuns |
| virtual machine, ORDER BY, GROUP BY | Program, SortGroup, Grouping, VirtualMachine, Vdbe, TableView, CursorEdits |
| SQL compiler | Ast, CompileExpr, SelectPlan, CompileSelect, SelectRun, SelectMeaning, GroupItems, GroupMeaning, GroupLimits, CompileDml, DmlRun, DmlMeaning, Statements |
| catalogue | Ddl, DdlParser, Schema |

How the layers meet:

- **Pages.** `LeafHolds` says that the bytes of a page store exactly a sorted list of rows, cells disjoint
  and clear of header and pointers. The in-place methods are proved to change that list by one sorted
  insertion, removal or replacement, or not at all.
- **Trees.** A tree value describes the pages of a table at any height; `TreeOk` ties it to the pager's
  pages together with the search-tree invariant. `Btree` keeps it and changes the list of all rows, hence
  the map from rowid to record, at one rowid.
- **Cursors.** `TableCursor` walks the pages with its stack; it is proved to do on them what two small
  functions, `First` and `Next`, do on the list of leaves (`LeafList`). The virtual machine works on
  that list; `TableView` shows that its changes are those of the B-tree, and `CursorEdits` that a cursor
  survives them where it stands.
- **Log.** `SoundLog` describes a log file with stale frames behind the live ones; appends, cuts, crashes
  within a checkpoint and reopening are proved to keep it. `Checkpoint` also returns a ghost list of the
  files after every single write, none of which loses a page.
- **Programs.** The compilers emit and patch instructions in a `Program`; their methods are proved to give
  a program described by one function (`SelectCode`, `DmlCode`). The machine is a class proved against a
  step function, and the theorems run those programs on it from the first instruction to Halt.

- **Meaning.** `SqlValue` for SELECT and `RowValue` for UPDATE and DELETE give an expression its value on a
  row by recursion, columns anywhere in it, with SQL's null rules (`SqlBinary`, `SqlUnary`); which values are
  true, how values compare and float arithmetic are the engine's. For a group of rows `SqlItem` gives each item
  of the select list its value, a key column or an aggregate of the group. Code and meaning are compared against
  these.

What the code does not do as its own documentation or SQL would have it, each with the exact condition or
an example:

- varints from 2^56 on are not read back (`Varint.RoundTrip`);
- nulls are values like others to the operators, so SQL's null rules hold only on operands that are there
  (`CompileExpr.OperatorExact`, and `CompileExpr.TestExact` for conditions);
- `<=` and `>=` are exchanged (`CompileExpr.LeGeExact`); IS NOT and unary plus are compiled to something else
  (`CompileExpr.OtherOperators`);
- unary minus subtracts register 0 (`CompileExpr.MinusExact`, `CompileExpr.MinusOfOne`), and integer literals
  are cut to 32 bits (`CompileExpr.LiteralExact`);
- a column below the top operator of a condition reads as null: a SELECT with `a = 1 AND b = 2` loses rows
  (`SelectMeaning.ConjunctionExact`, `SelectMeaning.ConjunctionInput`);
- UPDATE and DELETE have no opcode for AND, OR, arithmetic and LIKE in a condition and compile them to Eq, and
  read a column on the right as null: `a = 1 AND b = 2` and `1 <> b` choose every row (`DmlMeaning.JoinedTests`,
  `DmlMeaning.RightColumn`, `DmlMeaning.WrongRowRemoved`);
- in UPDATE and DELETE a column named with its table reads as null: `t.a = 1` chooses no row and `SET b = t.a`
  stores null (`DmlMeaning.QualifiedColumn`, `DmlMeaning.QualifiedAssigned`);
- a grouped row is shown as its keys and then its aggregates, whatever the order of the select list:
  `SELECT SUM(b) FROM t GROUP BY a` shows a (`GroupItems.ShownExact`, `GroupItems.InOrderIff`,
  `GroupLimits.SumInput`);
- ORDER BY on groups takes the place of its term among the scanned columns for a place in the grouped row
  (`GroupLimits.GroupedOrderExact`, `GroupLimits.OrderInput`);
- COUNT of a column counts nulls too, SUM of nothing but nulls is 0 (`GroupItems.AggregateExact`), and
  aggregates without GROUP BY give no row when there are no rows (`GroupMeaning.GroupedMeans`);
- GROUP BY without an aggregate in the select list groups nothing (`GroupLimits.UngroupedExact`);
- `COUNT(*)` ignores WHERE (`Statements.CountExact`, `Statements.CountInput`);
- DELETE skips the row behind a removed one (`DmlMeaning.PassCompleteIff`);
- the value order runs in circles over mixed kinds (`Values.CompareCircular`, `SortGroup.MixedKindsUnordered`);
- group keys with separator bytes can collide (`Grouping.SeparatorsCollide`);
- a scan ends at the first empty leaf (`LeafList.ScanComplete`), and `next` can come back behind it
  (`LeafList.FalseForever`);
- constraints are not stored with a table (`Ddl.PrintedTableParses`), and a table called sqlite_master is
  lost when the database is opened again (`Schema.RunDdl`);
- a promoted root records a wrong content start (`InteriorPage.PromotedRoot`).

Conventions. Bytes are integers below 256; shifts and masks are written as multiplications and
remainders, with the 64-bit truncation explicit. Integers of the source that are bounded by file or
program sizes (offsets, addresses, register numbers) are unbounded here. Text is its UTF-8 bytes and a
float its 64 bits. Float arithmetic, number parsing, the repair of malformed UTF-8 and the order in which
a hash map is walked are parameters (`Values.Lib`): everything is proved for any choice of them, but for
three stated assumptions: a walk meets every key once (`Values.Walks`); where unary minus is concerned floats
are exact on small integers (`CompileExpr.ExactIntegers`); and where two items of a select list are told apart
floats tell 0 + 1 from 0 (`GroupItems.Adds`).

## Model

| member | source | states |
|---|---|---|
| MemoryFile.File.ReadAt | sqllite-core/src/io/mod.rs:70-79 | copies what the file has from an offset on into the buffer, and no more |
| MemoryFile.File.WriteAt | sqllite-core/src/io/mod.rs:81-89 | the file afterwards has the bytes at the offset, zeros in any gap, and every other byte as before |
| MemoryFile.File.Truncate | sqllite-core/src/io/mod.rs:91-94 | a longer file is cut to the size, a shorter one left alone |
| MemoryFile.ReadExactAt | sqllite-core/src/io/mod.rs:110-120 | gives exactly the bytes asked for, or an error if the file ends before them |
| MemoryFile.WriteExactAt | sqllite-core/src/io/mod.rs:123-133 | the whole string is in the file, nothing else changed |
| MemoryFile.PageWritten | sqllite-core/src/storage/pager.rs:251-255 | writing one page of a file makes that page read as written and leaves every other page that was there |
| Bytes.WordsAt | sqllite-core/src/io/mod.rs:146-153 | a stored big-endian word is read back, for any field of a block of words |
| Varint.ReadVarint | sqllite-core/src/varint.rs:9-36 | the reading loop, equal to the grammar of 7-bit groups with an 8-bit ninth byte, errors included |
| Varint.WriteVarint | sqllite-core/src/varint.rs:39-58 | the two writing loops leave exactly the encoding in the buffer, the rest of the buffer untouched |
| Varint.VarintLen | sqllite-core/src/varint.rs:61-71 | the length of the encoding |
| Varint.EncLength | sqllite-core/src/varint.rs:5-6 | nine bytes suffice below 2^63, and the ninth is used exactly from 2^56 on |
| Varint.RoundTrip | sqllite-core/src/varint.rs:9-58 | reading undoes writing, whatever follows, if and only if the value is below 2^56 |
| Varint.PrefixFree | sqllite-core/src/varint.rs:9-58 | no encoding is a proper prefix of another |
| Record.ReadInteger | sqllite-core/src/record.rs:179-192 | copying, sign extension and the 64-bit reading together give the two's-complement number of the stored bytes |
| Record.SignedRoundTrip | sqllite-core/src/record.rs:69-87 | the low k bytes of a number that fits k bytes read back as the number |
| Record.SerialTypeFits | sqllite-core/src/record.rs:45-67 | an integer fits the width of its serial type and of no smaller one |
| Record.ValueRoundTrip | sqllite-core/src/record.rs:69-87 | one encoded value decodes to itself and to its exact length, wherever it stands |
| Record.DecodeColumn | sqllite-core/src/record.rs:129-177 | the case analysis as run: whatever value was written at the offset is read back with its length, and every other serial type or short body gives the specified value or error |
| Record.EncodeRecord | sqllite-core/src/record.rs:21-43 | the encoding loop builds header length, column count, serial types and bodies in that order |
| Record.LoadHeader | sqllite-core/src/record.rs:90-96 | the shared first half of decoding: header bounds, column count and serial types, with every error |
| Record.DecodeRecord | sqllite-core/src/record.rs:102-127 | the decoding loop, equal to the recursive decoder |
| Record.RecordByteLength | sqllite-core/src/record.rs:89-99 | the length loop, equal to what the recursive decoder has consumed |
| Record.RoundTrip | sqllite-core/src/record.rs:21-127 | decoding an encoded record, with any bytes behind it, gives the values back and exactly its length |
| Record.SelfDelimiting | sqllite-core/src/record.rs:89-99 | two byte strings that start with records and are equal start with the same record |
| Values.BytesOrder | sqllite-core/src/types.rs:128-129 | dictionary order of byte strings is antisymmetric, and equal only on equal strings |
| Values.CompareReverses | sqllite-core/src/types.rs:113-132 | on nulls and values of one kind the comparison reverses with its operands and is equal only on equal values |
| Values.CompareTransitive | sqllite-core/src/types.rs:113-132 | on nulls and values of one kind the comparison is transitive |
| Values.CompareCircular | sqllite-core/src/types.rs:113-132 | on integers and texts together it is not: 9 < 10 < "5" < 9 |
| Slotted.InsertSlot | sqllite-core/src/storage/btree.rs:467-509 | refuses exactly when there is no room, changing nothing; otherwise the cell list has the new cell at the slot, all cells disjoint and clear of header and pointers |
| Slotted.InsertPtr | sqllite-core/src/storage/btree.rs:493-503 | the shifting loop inserts one pointer into the array |
| Slotted.RemoveSlot | sqllite-core/src/storage/btree.rs:1017-1026 | the shifting loop takes one pointer out; the content area keeps its bytes |
| Slotted.LayoutInserted | sqllite-core/src/storage/btree.rs:467-509 | a cell written below the content area disturbs no stored cell |
| Slotted.LayoutReplaced | sqllite-core/src/storage/btree.rs:965-987 | an overwrite of the same length disturbs no other cell |
| LeafPage.BuildTableCell | sqllite-core/src/storage/btree.rs:1332-1341 | a cell is rowid, payload length and payload |
| LeafPage.ReadCell | sqllite-core/src/storage/btree.rs:1379-1382 | a stored cell reads back as its rowid and payload |
| LeafPage.LeafHoldsUnique | sqllite-core/src/storage/btree.rs:1243-1266 | the bytes of a page determine its list of cells |
| LeafPage.FindCell | sqllite-core/src/storage/btree.rs:931-946 | finds the cell of a rowid if and only if the page has one |
| LeafPage.InsertIndex | sqllite-core/src/storage/btree.rs:474-484 | the slot before the first larger rowid |
| LeafPage.TryInsertLeafCell | sqllite-core/src/storage/btree.rs:467-509 | in-page insertion: the decoded list gets exactly this row in order, or the page is refused and unchanged |
| LeafPage.DeleteFromLeaf | sqllite-core/src/storage/btree.rs:1002-1032 | in-page deletion: the decoded list loses exactly this row, or nothing is found and nothing changes |
| LeafPage.UpdateInLeaf | sqllite-core/src/storage/btree.rs:965-987 | overwrites in place exactly when the row is there with the same payload length; the decoded list changes in that payload only |
| LeafPage.WriteCells | sqllite-core/src/storage/btree.rs:844-857 | cells written downwards lie disjoint between the pointer array and the end of the page |
| LeafPage.RebuildLeaf | sqllite-core/src/storage/btree.rs:837-861 | the rebuilt page holds exactly the given rows |
| LeafPage.CollectCells | sqllite-core/src/storage/btree.rs:649-664 | reads back all rows of the page |
| LeafPage.SortRows | sqllite-core/src/storage/btree.rs:665-666 | the collected rows with the new one, sorted by rowid |
| LeafPage.SplitLeaf | sqllite-core/src/storage/btree.rs:640-688 | both pages hold the two halves of the sorted rows, cut by count, and the divider is the last rowid of the left half |
| LeafPage.HeldFits | sqllite-core/src/storage/btree.rs:837-861 | the cells a page holds, with their pointers, are never more than its size, so the page can be rebuilt with them |
| LeafPage.SmallRowSplits | sqllite-core/src/storage/btree.rs:665-688 | a row no larger than any row of a full leaf, equal sizes included, always leaves two halves that fit |
| LeafPage.InitLeaf | sqllite-core/src/storage/btree.rs:1296-1312 | an empty leaf |
| LeafPage.ReinsertIsReplace | sqllite-core/src/storage/btree.rs:119-131 | deleting a row and inserting it again with another payload is replacing the payload |
| InteriorPage.FindChild | sqllite-core/src/storage/btree.rs:416-426 | the child routed to: the first whose divider is not below the rowid, else the rightmost |
| InteriorPage.ChildAtSlot | sqllite-core/src/storage/btree.rs:445-465 | the child in a slot, the rightmost in the last |
| InteriorPage.PromotedRoot | sqllite-core/src/storage/btree.rs:311-331 | a page with one divider between two children; its recorded content start is the page size although the cell lies below |
| Tree.OrderedWithin | sqllite-core/src/storage/btree.rs:416-426 | every row of an ordered tree lies within its bounds |
| Tree.RowsSorted | sqllite-core/src/storage/btree.rs:416-426 | the rows of an ordered tree of any height ascend strictly in rowid, from leaf to leaf |
| Tree.LeavesSetLeaf | sqllite-core/src/storage/btree.rs:174-199 | rewriting the routed leaf changes exactly one leaf of the list |
| Tree.TargetApart | sqllite-core/src/storage/btree.rs:416-426 | a rowid is above every row before its leaf and below every row after it, at any height |
| Tree.OrderedSetLeaf | sqllite-core/src/storage/btree.rs:174-199 | the search-tree invariant survives any rewrite of the routed leaf with its old rowids and the routed one |
| Tree.RoutedLeafDecides | sqllite-core/src/storage/btree.rs:931-946 | a rowid occurs anywhere in the tree if and only if it occurs in the one leaf that is looked at |
| Tree.RowsInsert | sqllite-core/src/storage/btree.rs:174-199 | insertion into the routed leaf is sorted insertion into the list of all rows |
| Tree.RowsRemove | sqllite-core/src/storage/btree.rs:1002-1032 | removal from the routed leaf removes that row from the list of all rows and no other |
| Tree.RowsReplace | sqllite-core/src/storage/btree.rs:965-987 | replacement in the routed leaf replaces that payload in the list of all rows |
| Tree.AsMapKeys | sqllite-core/src/storage/btree.rs:931-946 | the map a list of rows stands for has a rowid if and only if some row has it |
| Tree.AsMapInsert | sqllite-core/src/storage/btree.rs:109-117 | sorted insertion of a new rowid is insertion into the map |
| Tree.AsMapRemove | sqllite-core/src/storage/btree.rs:1002-1032 | removal is removal from the map |
| Tree.AsMapReplace | sqllite-core/src/storage/btree.rs:119-131 | replacement changes the map at that rowid only |
| Btree.FindLeaf | sqllite-core/src/storage/btree.rs:989-1000 | the search ends in the leaf that the dividers route to |
| Btree.InsertIntoLeaf | sqllite-core/src/storage/btree.rs:228-262 | refused, inserted in the page, or split, each exactly when |
| Btree.SplitInto | sqllite-core/src/storage/btree.rs:640-688 | a split leaves the two halves in the old and a new page and touches no other page |
| Btree.InsertIntoTree | sqllite-core/src/storage/btree.rs:174-199 | insertion at any height: refused, done in the routed leaf, or a leaf root split |
| Btree.PromotedOrdered | sqllite-core/src/storage/btree.rs:299-337 | the tree with a promoted root is ordered, every left rowid at most the divider and every right one above it, and has the same rows |
| Btree.Btree.PromoteRootSplit | sqllite-core/src/storage/btree.rs:299-337 | the new root above the two halves: a valid tree of height two with all rows |
| Btree.Btree.Create | sqllite-core/src/storage/btree.rs:61-70 | a new tree is valid and has no rows; pages of other trees are left alone |
| Btree.Btree.Insert | sqllite-core/src/storage/btree.rs:109-157 | refused, changing nothing, exactly when the rowid occurs in the tree; otherwise the rows, and the map from rowid to record, change by exactly this one, split and promotion included |
| Btree.SmallRowInserts | sqllite-core/src/storage/btree.rs:228-262 | a table of one leaf, full or not, takes every row that is no larger than those it has |
| Btree.Btree.Delete | sqllite-core/src/storage/btree.rs:1002-1032 | removes exactly the row of this rowid, if there is one, from the rows and from the map |
| Btree.Btree.UpdateTableRow | sqllite-core/src/storage/btree.rs:965-987 | overwrites in place exactly when the length is the same |
| Btree.Btree.Replace | sqllite-core/src/storage/btree.rs:119-131 | sets the record of a rowid, where it stands if it is stored, in place or by deletion and insertion; the map changes at this rowid only |
| LeafList.ScanIsVisible | sqllite-core/src/storage/btree.rs:1036-1061 | `first` and then `next` until it answers false yield every row before the first empty leaf exactly once, in order |
| LeafList.ScanComplete | sqllite-core/src/storage/btree.rs:1036-1061 | a scan is the whole table if and only if no row stands behind an empty leaf |
| LeafList.NextRemaining | sqllite-core/src/storage/btree.rs:1044-1061 | `next` leaves exactly the rows behind the current one, and answers false exactly when there are none |
| LeafList.EndStays | sqllite-core/src/storage/btree.rs:1045-1047 | past the end of the table `next` answers false and changes nothing |
| LeafList.FalseForever | sqllite-core/src/storage/btree.rs:1044-1061 | after a first false `next` answers false forever if and only if no later leaf has a row |
| BtreeCursor.TableCursor.DescendLeftmost | sqllite-core/src/storage/btree.rs:1209-1241 | descends to the leftmost leaf below, one stack frame per interior page |
| BtreeCursor.TableCursor.AdvanceToNextLeaf | sqllite-core/src/storage/btree.rs:1186-1207 | pops and pushes frames to the leaf after the current one, or finds that it was the last |
| BtreeCursor.TableCursor.ReadCurrent | sqllite-core/src/storage/btree.rs:1243-1266 | reads the row under the cursor if the leaf has one there |
| BtreeCursor.TableCursor.First | sqllite-core/src/storage/btree.rs:1036-1042 | on a tree of any height, does on stack and pages what `first` does on the list of leaves |
| BtreeCursor.TableCursor.Next | sqllite-core/src/storage/btree.rs:1044-1061 | on a tree of any height, does on stack and pages what `next` does on the list of leaves; once the end is reached it stays reached |
| BtreeCursor.ScanTable | sqllite-core/src/storage/btree.rs:1036-1061 | `first` and then `next` until it answers false give rows in strictly ascending rowid order, each once; they are all rows of the tree if and only if no row stands behind an empty leaf |
| BtreeCursor.AllocateRowid | sqllite-core/src/vdbe/exec.rs:552-569 | one more than the largest rowid that a scan of the tree sees |
| BtreeCursor.AllocatedIsFresh | sqllite-core/src/vdbe/exec.rs:552-569 | that rowid is above every row a scan sees; it is new if and only if no row behind the first empty leaf has it |
| TableView.StoreIsReplace | sqllite-core/src/vdbe/exec.rs:305-309 | the machine's store on the list of leaves is what `Btree.Replace` does to the tree |
| TableView.RemovalIsDelete | sqllite-core/src/vdbe/exec.rs:321-328 | the machine's removal on the list of leaves is what `Btree.Delete` does to the tree |
| TableView.TreeSweepable | sqllite-core/src/storage/btree.rs:416-426 | a stored tree has a leaf, and no rowid occurs twice in it |
| CursorEdits.PathSetLeaf | sqllite-core/src/storage/btree.rs:1209-1241 | rewriting the rows of a leaf leaves every stack of frames leading where it led |
| CursorEdits.StoreCurrent | sqllite-core/src/vdbe/exec.rs:291-320 | replacing the row under a cursor on pages and stack: the cursor stays valid where it is, and the leaves change as the machine has it |
| CursorEdits.DeleteCurrent | sqllite-core/src/vdbe/exec.rs:321-328 | deleting the row under a cursor on pages and stack: the cursor stays valid where it is, and the leaves change as the machine has it |
| DbHeader.HeaderRoundTrip | sqllite-core/src/storage/header.rs:68-142 | a written database header parses to itself |
| Pager.FreshRootHolds | sqllite-core/src/storage/pager.rs:111-131 | the first page of a new database holds its header and an empty leaf |
| Pager.Pager.GetPage | sqllite-core/src/storage/pager.rs:203-237 | a page reads as the cache or the file has it; the cache gets a clean copy; errors change nothing |
| Pager.Pager.WritePage | sqllite-core/src/storage/pager.rs:239-249 | the page reads as written from then on, and the file is untouched; a read-only database refuses |
| Pager.Pager.AllocatePage | sqllite-core/src/storage/pager.rs:257-270 | a page number never read before, which reads as zeros |
| Pager.Pager.WriteDirty | sqllite-core/src/storage/pager.rs:286-306 | the dirty pages reach the file in any order |
| Pager.Pager.Commit | sqllite-core/src/storage/pager.rs:280-346 | the file alone holds every page as it reads; only the first hundred bytes of page 1 change; outside a transaction nothing happens |
| Pager.Pager.Rollback | sqllite-core/src/storage/pager.rs:348-352 | every page of the last commit reads as committed |
| Pager.OpenExisting | sqllite-core/src/storage/pager.rs:54-109 | opening a file: page size, header and page count from the file, or the error; its pages read as the file has them if the first one is whole |
| Pager.CommitAndReopen | sqllite-core/src/storage/pager.rs:280-346 | a committed database, opened again, has the same pages |
| PagerRuns.Run | sqllite-core/src/storage/pager.rs:203-352 | over any run of reads, writes, allocations, commits and rollbacks every page of the expected state reads as expected, and every committed page is kept |
| Checksum.WalChecksum | sqllite-core/src/storage/wal.rs:34-43 | the checksum loop as a fold |
| Checksum.ClosedForm | sqllite-core/src/storage/wal.rs:34-43 | the loop gives a plain sum and a position-weighted sum modulo 2^32 |
| Checksum.OneWordDetected | sqllite-core/src/storage/wal.rs:34-43 | a change of a single word changes the checksum |
| Checksum.SwapDetected | sqllite-core/src/storage/wal.rs:34-43 | so does the exchange of two unequal words an odd distance apart |
| WalFormat.HeaderRoundTrip | sqllite-core/src/storage/wal.rs:93-136 | an encoded log header decodes to itself |
| WalFormat.SlotRoundTrip | sqllite-core/src/storage/wal.rs:140-186 | an encoded frame is read back and checks |
| WalFormat.PassesIff | sqllite-core/src/storage/wal.rs:172-186 | a damaged page passes verification if and only if both its sums are unchanged |
| WalFormat.OneWordDamage | sqllite-core/src/storage/wal.rs:172-186 | verification rejects every page that differs in exactly one 32-bit word |
| WalFormat.SwapDamage | sqllite-core/src/storage/wal.rs:172-186 | and every page with two unequal words an odd distance apart exchanged |
| WalFormat.Recovered | sqllite-core/src/storage/wal.rs:268-300 | recovery accepts exactly the frames of a sound log |
| WalFormat.CutSound | sqllite-core/src/storage/wal.rs:268-300 | a cut at any length behind the header keeps exactly the complete frames |
| WalFormat.AppendSound | sqllite-core/src/storage/wal.rs:302-330 | an append keeps the log sound |
| WalFormat.BumpSound | sqllite-core/src/storage/wal.rs:377-381 | new salts turn every frame stale at once |
| Wal.IndexIsLast | sqllite-core/src/storage/wal.rs:294-296 | the index has the last frame of each page and no page without one |
| Wal.Wal.Create | sqllite-core/src/storage/wal.rs:199-219 | a new log is sound and empty |
| Wal.Wal.RebuildIndex | sqllite-core/src/storage/wal.rs:268-300 | the loop over the frames recovers the accepted prefix and its index |
| Wal.Wal.AppendFrame | sqllite-core/src/storage/wal.rs:302-330 | the log grows by exactly this frame; a page of the wrong size is refused and nothing changes |
| Wal.Wal.ReadPage | sqllite-core/src/storage/wal.rs:332-354 | the data of the last frame of the page, or none |
| Wal.Wal.CopyPages | sqllite-core/src/storage/wal.rs:361-376 | pages are copied in any order; after each single copy every page still reads the same |
| Wal.Wal.Checkpoint | sqllite-core/src/storage/wal.rs:360-387 | every page ends in the database file; at every point between two writes, opening log and file again gives every page that could be read before unchanged |
| WalRuns.Open | sqllite-core/src/storage/wal.rs:221-257 | opening: an empty file, a short one, a bad header, another page size, or the recovered log |
| WalRuns.Cut | sqllite-core/src/storage/wal.rs:221-257 | a crash that loses the end of the file, and reopening, keep exactly the complete frames |
| WalRuns.StopInCopies | sqllite-core/src/storage/wal.rs:360-376 | a checkpoint that stops among its copies, and reopening, lose nothing |
| WalRuns.StopBeforeCut | sqllite-core/src/storage/wal.rs:377-382 | a checkpoint that stops between new salts and cut, and reopening, lose nothing |
| WalRuns.Run | sqllite-core/src/storage/wal.rs:221-387 | over any run of appends, checkpoints, crashes and reopenings the log holds exactly the expected frames, and every page of the expected state reads back |
| Program.Program.Emit | sqllite-core/src/vdbe/program.rs:224-228 | appends the instruction and gives its address |
| Program.Program.PatchP2 | sqllite-core/src/vdbe/program.rs:230-232 | changes the second operand of one instruction |
| VirtualMachine.RunCalcConcat | sqllite-core/src/vdbe/exec.rs:143-518 | code that only computes runs piece by piece |
| VirtualMachine.CalcRuns | sqllite-core/src/vdbe/exec.rs:82-104 | stepping through such code is running it, or stopping with its error |
| Vdbe.Vdbe.StoreReg | sqllite-core/src/vdbe/exec.rs:520-526 | sets one register, growing the file with nulls |
| Vdbe.Vdbe.Calculate | sqllite-core/src/vdbe/exec.rs:330-407 | the computing instructions on the object, equal to the specification |
| Vdbe.Vdbe.CountRows | sqllite-core/src/vdbe/exec.rs:442-456 | the counting loop counts the rows a scan sees |
| Vdbe.Vdbe.Execute | sqllite-core/src/vdbe/exec.rs:143-518 | one instruction takes the object from state to state as specified, and gives a row exactly for ResultRow |
| Vdbe.Vdbe.Step | sqllite-core/src/vdbe/exec.rs:74-104 | runs to the next row, the end or an error, along the specified states |
| Vdbe.FinalUnique | sqllite-core/src/vdbe/exec.rs:74-104 | a program has at most one final state |
| Vdbe.RunAll | sqllite-core/src/connection.rs:97-118 | the caller's loop collects exactly the rows of the final state |
| SortGroup.RowsReverse | sqllite-core/src/vdbe/exec.rs:571-584 | the multi-key comparator reverses with its operands |
| SortGroup.RowsTransitive | sqllite-core/src/vdbe/exec.rs:571-584 | the multi-key comparator, ascending and descending, is transitive |
| SortGroup.SortPermutes | sqllite-core/src/vdbe/exec.rs:571-584 | sorting loses and invents no row |
| SortGroup.SortAscending | sqllite-core/src/vdbe/exec.rs:571-584 | the result is in order when each key column holds nulls and one kind of values |
| SortGroup.SortStable | sqllite-core/src/vdbe/exec.rs:571-584 | rows that the keys cannot tell apart keep their order |
| SortGroup.SortSorts | sqllite-core/src/vdbe/exec.rs:571-584 | the result is in order and keeps every class of rows with equal keys, in their old order |
| SortGroup.StableSortUnique | sqllite-core/src/vdbe/exec.rs:571-584 | a list is the result if and only if it is in order and keeps every class of equal rows: any stable sort gives it |
| SortGroup.MixedKindsUnordered | sqllite-core/src/types.rs:113-132 | with integers and texts in one key column the result need not be in order |
| Grouping.ApplyGroupBy | sqllite-core/src/vdbe/exec.rs:586-689 | the nested loops over rows and aggregates, equal to the specification for any walk over the hash map |
| Grouping.GroupIsMembers | sqllite-core/src/vdbe/exec.rs:657-677 | a group exists exactly for the key texts of rows, and holds the first such row's key and the aggregates of all of them |
| Grouping.GroupingConserves | sqllite-core/src/vdbe/exec.rs:657-677 | the group sizes add up to the number of rows |
| Grouping.FoldCounts | sqllite-core/src/vdbe/exec.rs:604-607 | COUNT is the size of the group |
| Grouping.SumIsFold | sqllite-core/src/vdbe/exec.rs:608-614 | SUM adds up the values of the group that are not null, in row order |
| Grouping.MinIsLeast | sqllite-core/src/vdbe/exec.rs:615-627 | MIN is a value of the group that none is less than |
| Grouping.MaxIsGreatest | sqllite-core/src/vdbe/exec.rs:628-640 | MAX is a value of the group that none is greater than |
| Grouping.GroupingOrderFree | sqllite-core/src/vdbe/exec.rs:679-688 | another walk over the hash map gives the same rows in another order |
| Grouping.SameGroupIff | sqllite-core/src/vdbe/exec.rs:658-667 | without separator bytes, two rows share a group if and only if their keys read the same |
| Grouping.SeparatorsCollide | sqllite-core/src/vdbe/exec.rs:658-667 | with separator bytes, different keys can share a group |
| CompileExpr.EmitExpr | sqllite-core/src/compile.rs:471-570 | emits exactly the specified code |
| CompileExpr.ExprComputes | sqllite-core/src/compile.rs:471-570 | from any registers the code leaves the value of the expression in its register and every register below alone, or stops with its error |
| CompileExpr.OperatorExact | sqllite-core/src/vdbe/exec.rs:330-407 | the machine computes an operator by the null rules of SQL if and only if both operands are there, or a false operand decides AND, or it is IS |
| CompileExpr.TestExact | sqllite-core/src/vdbe/exec.rs:330-346 | as a test, with null for false, an operator lets the right rows pass if and only if no null misleads it: not two nulls in =, one in <>, a left one in <, a right one in >, one beside a true operand in OR |
| CompileExpr.PlainEval | sqllite-core/src/compile.rs:471-570 | expressions of literals and operators the machine has compute their value by SQL, whatever register 0 holds |
| CompileExpr.LeGeExact | sqllite-core/src/vdbe/exec.rs:338-340 | the exchanged tests are right if and only if the operands are there and compare equal |
| CompileExpr.OtherOperators | sqllite-core/src/compile.rs:532-557 | NOT is right if and only if its operand is there; IS NOT and unary plus, compiled to Eq and Not, are never right |
| CompileExpr.LiteralExact | sqllite-core/src/compile.rs:482-491 | an integer literal keeps its value if and only if it fits 32 bits |
| CompileExpr.MinusExact | sqllite-core/src/compile.rs:543-557 | on an operand that reads as a small integer unary minus negates if and only if register 0 reads as twice that integer |
| CompileExpr.MinusOfOne | sqllite-core/src/compile.rs:543-557 | on the first row of a scan only zero is negated: -(1) computes 1 |
| CompileExpr.Reg0Free | sqllite-core/src/compile.rs:543-557 | without unary minus the value does not depend on register 0 |
| Ast.ColumnIndex | sqllite-core/src/schema.rs:40-42 | the first column of that name, or none if there is none |
| SelectPlan.CollectFromIs | sqllite-core/src/compile_select.rs:363-404 | the recursion lists the tables from left to right and keeps the condition of the outermost join; it fails if and only if a table is unknown or there is a subquery |
| SelectPlan.BindTables | sqllite-core/src/compile_select.rs:48-67 | one table without, or several with, an ON condition of an inner join |
| SelectPlan.ResolvesIff | sqllite-core/src/compile_select.rs:670-714 | a plain name resolves if and only if one table has the column and no other does |
| SelectPlan.PushUnique | sqllite-core/src/compile_select.rs:544-554 | a column joins the sources only if it is not among them, so that no source comes twice |
| SelectPlan.BuildPlan | sqllite-core/src/compile_select.rs:406-529 | widths, keys and aggregates of the plan fit the statement |
| SelectPlan.RowSourcesAre | sqllite-core/src/compile_select.rs:457-484 | without stars the sources are the select items one for one, columns as columns |
| SelectPlan.GroupKeysAre | sqllite-core/src/compile_select.rs:421-424 | the group keys are the GROUP BY columns one for one, each column in one place |
| SelectPlan.AggregatesAre | sqllite-core/src/compile_select.rs:426-456 | the aggregates are the calls of the select list in order, each with its function and on the column it names |
| SelectPlan.OrderKeysAre | sqllite-core/src/compile_select.rs:569-598 | an ORDER BY term that names a source is given its place among the sources, and its direction: the column sorted by when there are no aggregates (for groups see `GroupLimits.GroupedOrderExact`) |
| CompileSelect.EmitPred | sqllite-core/src/compile_select.rs:777-811 | emits exactly the specified code |
| CompileSelect.EmitLoad | sqllite-core/src/compile_select.rs:728-752 | emits exactly the specified code |
| CompileSelect.VisitPatched | sqllite-core/src/compile_select.rs:123-140 | patching the open jumps turns row code into row code with that target |
| CompileSelect.EmitJoinLoops | sqllite-core/src/compile_select.rs:101-157 | two nested loops with every jump patched to its place |
| CompileSelect.EmitLoop | sqllite-core/src/compile_select.rs:158-177 | one loop with every jump patched to its place |
| CompileSelect.EmitDrain | sqllite-core/src/compile_select.rs:212-248 | the loop over the buffer with its exits patched |
| CompileSelect.EmitSelect | sqllite-core/src/compile_select.rs:38-261 | the emitted and patched program is the specified one |
| SelectRun.VisitRuns | sqllite-core/src/compile_select.rs:115-141 | the code for one row, or pair of rows, tests, projects and emits as specified and ends behind itself |
| SelectRun.InnerRuns | sqllite-core/src/compile_select.rs:133-140 | the innermost loop visits each remaining row once, in order |
| SelectRun.OuterRuns | sqllite-core/src/compile_select.rs:142-157 | the outer loop runs the inner table through for each of its rows, empty tables included |
| SelectRun.ScanRuns | sqllite-core/src/compile_select.rs:72-181 | from the first instruction to the end of all loops |
| SelectRun.DrainRuns | sqllite-core/src/compile_select.rs:212-248 | the buffer is emitted row by row |
| SelectRun.WideIff | sqllite-core/src/compile_select.rs:486-491 | grouped rows cover the select list if and only if it has no more plain columns than there are GROUP BY terms |
| SelectRun.SelectRuns | sqllite-core/src/compile_select.rs:38-261 | a compiled SELECT halts with exactly the rows of its scan, grouped and sorted, no table changed; a failing evaluation stops it with the rows before |
| SelectMeaning.ScanIsViews | sqllite-core/src/compile_select.rs:101-177 | the nested loops are one pass over the pairs of rows in outer-major order |
| SelectMeaning.PredMeans | sqllite-core/src/compile_select.rs:777-811 | a condition on columns and plain expressions lets a row pass as SQL has it if and only if no null misleads its operator |
| SelectMeaning.ScanMeans | sqllite-core/src/compile_select.rs:101-177 | a pass without error gives exactly the projections of the rows for which ON and WHERE are true |
| SelectMeaning.ScanSafe | sqllite-core/src/compile_select.rs:101-177 | no error can occur when rows decode and no remainder is taken |
| SelectMeaning.SelectAnswers | sqllite-core/src/compile_select.rs:38-261 | with columns only as select items or direct operands, and no null that misleads a condition, the program halts with the projections of the rows for which ON and WHERE are true, grouped and sorted by the plan |
| SelectMeaning.SelectMeans | sqllite-core/src/compile_select.rs:38-261 | without GROUP BY and aggregates these are exactly the rows that SQL asks for: in scan order, or under ORDER BY each once, in order by the keys and rows with equal keys in scan order |
| GroupItems.CoincideExact | sqllite-core/src/vdbe/exec.rs:604-651 | two values of a group, key columns or aggregates, agree on every group if and only if they are the same, two counts, or a key column and its least or greatest value |
| GroupItems.AggregateExact | sqllite-core/src/vdbe/exec.rs:604-651 | an aggregate is computed by SQL if and only if COUNT of a column meets no null and SUM a value |
| GroupItems.AskedThere | sqllite-core/src/compile_select.rs:426-456 | every item of the select list asks for something: a plain column for a key, a call for an aggregate the plan has |
| GroupItems.InOrderIff | sqllite-core/src/compile_select.rs:486-491 | every place of the select list is shown what it asks for if and only if the list has the GROUP BY columns first, in order and all of them, and then its calls |
| GroupItems.ShownExact | sqllite-core/src/vdbe/exec.rs:679-688 | of every group the machine shows the values of the items asked for if and only if each coincides with the item in its place |
| GroupMeaning.GroupsExact | sqllite-core/src/vdbe/exec.rs:658-671 | the groups are those of SQL, the rows with one key, if and only if no two different keys read the same |
| GroupMeaning.GroupRowsAre | sqllite-core/src/vdbe/exec.rs:679-688 | the grouped rows are, for each group, its keys and then its aggregates |
| GroupMeaning.EmptyAnswer | sqllite-core/src/vdbe/exec.rs:654-688 | without GROUP BY there is one row if there are rows, and none otherwise |
| GroupMeaning.GroupedMeans | sqllite-core/src/compile_select.rs:38-261 | a SELECT with aggregates halts with one row for each group of the rows for which ON and WHERE are true; with the list in order and keys told apart these are the rows of SQL if and only if counts of columns meet no null, sums meet a value, and there is a row or a GROUP BY |
| GroupLimits.GroupedSorts | sqllite-core/src/compile_select.rs:201-210 | under ORDER BY the groups come out sorted by the places of the grouped row, groups with equal keys as walked over |
| GroupLimits.GroupedOrderExact | sqllite-core/src/compile_select.rs:569-598 | sorting groups by the place that a column has among the sources is sorting by that column on every group if and only if it stands there in the grouped row, as itself or as the least or greatest value of a key |
| GroupLimits.DistinctKeysOrder | sqllite-core/src/compile_select.rs:421-424 | so it is for the GROUP BY columns when no two terms name the same one |
| GroupLimits.UngroupedExact | sqllite-core/src/compile_select.rs:188-199 | GROUP BY without an aggregate shows every row, rightly if and only if no two rows have the same GROUP BY values |
| GroupLimits.SumInput | sqllite-core/src/compile_select.rs:486-491 | a key where a sum was asked for: SELECT SUM(b) FROM t GROUP BY a shows a |
| GroupLimits.OrderInput | sqllite-core/src/compile_select.rs:502-519 | groups in the wrong order: GROUP BY a, a, b ORDER BY b sorts by a |
| SelectMeaning.NestedColumnsBlind | sqllite-core/src/compile_select.rs:784-786 | a condition whose operands are not columns themselves has the same value on every row |
| SelectMeaning.ConjunctionFails | sqllite-core/src/compile_select.rs:784-798 | a conjunction with a comparison of a column and an integer lets no row pass |
| SelectMeaning.ConjunctionExact | sqllite-core/src/compile_select.rs:784-798 | a scan under such a condition gives the rows asked for if and only if none is asked for |
| SelectMeaning.ConjunctionInput | sqllite-core/src/compile_select.rs:784-798 | a row that is lost: (1, 2) under a = 1 AND b = 2 |
| CompileDml.PrepareUpdate | sqllite-core/src/compile.rs:236-259 | every assignment gets the number of the first column of its name |
| CompileDml.UpdateRefused | sqllite-core/src/compile.rs:236-259 | an UPDATE is refused if and only if its table or a column it assigns is unknown |
| CompileDml.EmitCondition | sqllite-core/src/compile.rs:437-469 | emits exactly the specified code; the right operand gets no columns |
| CompileDml.EmitDml | sqllite-core/src/compile.rs:140-266 | the emitted and patched program of UPDATE and DELETE is the specified one |
| DmlRun.WhereRuns | sqllite-core/src/compile.rs:437-469 | the condition leads on or to the next row as its value says |
| DmlRun.BuildRuns | sqllite-core/src/compile.rs:253-262 | old values, assignments, rowid and record are ready in their registers |
| DmlRun.ActRuns | sqllite-core/src/compile.rs:248-263 | the code for one row changes the table as specified and ends behind itself |
| DmlRun.SweepRuns | sqllite-core/src/compile.rs:248-264 | the loop acts on the row under the cursor and moves on in the table as it is then |
| DmlRun.DmlRuns | sqllite-core/src/compile.rs:140-266 | a compiled UPDATE or DELETE sweeps its table once, changes no other, and counts its changes |
| DmlMeaning.ChosenExact | sqllite-core/src/compile.rs:437-469 | the compiled condition, a column or plain expression tested against a plain one, chooses a row as WHERE does if and only if no null misleads its operator |
| DmlMeaning.UpdateBy | sqllite-core/src/compile.rs:236-266 | whatever choice among rows the compiled condition makes, UPDATE gives exactly those rows their new record, once, and leaves other rows, rowids and order alone |
| DmlMeaning.UpdateExact | sqllite-core/src/compile.rs:236-266 | UPDATE gives exactly the rows for which WHERE is true their new record, once, and leaves other rows, rowids and order alone |
| DmlMeaning.UpdatedValues | sqllite-core/src/compile.rs:253-262 | the stored record of an updated row decodes to its old values with each assigned column set to its last right-hand side on the old row |
| DmlMeaning.AssignedColumn | sqllite-core/src/compile.rs:253-259 | an assigned column gets the value of its last right-hand side on the old row, any other keeps its value |
| DmlMeaning.NewCellValues | sqllite-core/src/compile.rs:260-262 | the stored record decodes to the new values |
| DmlMeaning.ReadableNoError | sqllite-core/src/compile.rs:248-263 | a row that decodes is swept without error when the condition takes no remainder |
| DmlMeaning.DeleteBy | sqllite-core/src/compile.rs:140-234 | whatever choice the compiled condition makes, DELETE leaves of every leaf exactly what its pass leaves, and counts the rows that went |
| DmlMeaning.DeleteExact | sqllite-core/src/compile.rs:140-234 | DELETE removes no row for which WHERE is not true, and all for which it is from a leaf if and only if no two neighbours there are both to go; it counts the rows that went |
| DmlMeaning.PassKeepsOthers | sqllite-core/src/compile.rs:140-234 | for any choice of rows, the pass over a leaf removes no row that is not chosen |
| DmlMeaning.PassCompleteIff | sqllite-core/src/storage/btree.rs:1044-1061 | for any choice of rows, all chosen rows of a leaf go if and only if no two neighbours are both chosen |
| DmlMeaning.JoinedTests | sqllite-core/src/compile.rs:447-456 | two tests of columns joined by AND, OR or another operator without a test of its own choose every row, rightly if and only if every row is asked for |
| DmlMeaning.RightColumn | sqllite-core/src/compile.rs:445-446 | a column on the right reads as null: n <> column chooses every row, rightly if and only if every row has another value there |
| DmlMeaning.QualifiedColumn | sqllite-core/src/compile.rs:412-435 | a column named with its table reads as null: t.y = n chooses no row, rightly if and only if no row has that value there |
| DmlMeaning.QualifiedAssigned | sqllite-core/src/compile.rs:412-435 | SET c = t.y stores null, rightly if and only if the row has null in y |
| DmlMeaning.WrongRowRemoved | sqllite-core/src/compile.rs:447-456 | a row removed that was not asked for: (5, 5) by a = 1 AND b = 2 |
| Statements.CountRuns | sqllite-core/src/compile_select.rs:306-361 | COUNT(*) gives the number of rows a scan sees |
| Statements.CountExact | sqllite-core/src/compile_select.rs:285-361 | COUNT(*) gives the number of rows for which WHERE is true if and only if it is true for every row a scan sees |
| Statements.CountInput | sqllite-core/src/compile_select.rs:285-361 | a wrong number: 1 for WHERE a = 1 on a table with the one row (5, 5) |
| Statements.ExecSelect | sqllite-core/src/connection.rs:97-118 | a SELECT from syntax tree to rows: every error, the simple count, and the rows of the scan |
| Statements.ExecUpdate | sqllite-core/src/connection.rs:97-118 | an UPDATE from syntax tree to tables and number of changes |
| Statements.ExecDelete | sqllite-core/src/connection.rs:97-118 | a DELETE from syntax tree to tables and number of changes |
| Ddl.PrintTable | sqllite-core/src/schema.rs:442-466 | the printing loop gives the tokens of the statement, constraints left out |
| Ddl.PrintIndex | sqllite-core/src/schema.rs:468-474 | the printing loop gives the tokens of the statement |
| Ddl.ColumnsRoundTrip | sqllite-parser/src/parser/parser_impl.rs:310-334 | printed columns parse back, in order, with their types |
| Ddl.PrintedTableParses | sqllite-core/src/schema.rs:442-466 | a printed CREATE TABLE parses to the statement without constraints, and to itself if and only if it has none |
| Ddl.PrintedIndexParses | sqllite-core/src/schema.rs:468-474 | a printed CREATE INDEX parses to itself |
| DdlParser.Parser.ParseColumnType | sqllite-parser/src/parser/parser_impl.rs:336-366 | the type and the new position by the grammar |
| DdlParser.Parser.ParseColumnDef | sqllite-parser/src/parser/parser_impl.rs:310-334 | the column and the new position by the grammar, or the error |
| DdlParser.Parser.ParseCreateTable | sqllite-parser/src/parser/parser_impl.rs:286-308 | the statement and the new position by the grammar, or the error |
| DdlParser.Parser.ParseCreateIndex | sqllite-parser/src/parser/parser_impl.rs:277-284 | the statement and the new position by the grammar, or the error |
| DdlParser.ParseOne | sqllite-parser/src/parser/mod.rs:33-38 | parsing a statement by the grammar |
| Schema.Schema.CreateTable | sqllite-core/src/schema.rs:93-129 | refused or passed over exactly when the name is in use; otherwise catalogue and schema rows grow by this table, and reading the rows again still gives the catalogue |
| Schema.Schema.CreateIndex | sqllite-core/src/schema.rs:132-163 | refused exactly when the name is in use, or table or column unknown; otherwise catalogue and schema rows grow by this index |
| Schema.Schema.Register | sqllite-core/src/schema.rs:336-372 | one row read back into the catalogue |
| Schema.LegacyNameLost | sqllite-core/src/schema.rs:345-348 | a table named sqlite_master is passed over when the rows are read again |
| Schema.FirstDeclared | sqllite-core/src/schema.rs:93-129 | after any run of statements there is a table of a name if and only if some statement creates it, and the first that does decides about columns and root page |
| Schema.RunDdl | sqllite-core/src/schema.rs:331-395 | after any run of CREATE statements the catalogue is the one declared, every statement has answered as it should, and opening the database again gives the same names, root pages, columns, affinities and indexes, if and only if no table has the legacy name |

## Left out

- Interior pages after the first root split: `insert_into_interior_table` and `split_interior_table` are not modelled, so `Btree.Btree.Insert` requires that a full leaf is the root.
- Index B-trees: no part of `flags.blobkey` is modelled, and `Schema.Schema.CreateIndex` builds no entries.
- Btree.Btree.Insert: requires that the two halves of a split, cut by count and not by bytes, fit their pages, as they do when the row is no larger than those of the leaf (`Btree.SmallRowInserts`), and rowids from 0 to 2^56 - 1, because the varint format carries no others.
- Btree.InsertIntoLeaf: requires that a split it has to make fits, as `Btree.Btree.Insert` does.
- Btree.InsertIntoTree: requires that a leaf that has to be split is the root, as `Btree.Btree.Insert` does.
- Btree.Btree.Replace: requires room for the new record in its leaf, since a split in the middle of a tree belongs to the interior pages left out.
- BtreeCursor.TableCursor.First: cursor and tree are one object here, as in the statements modelled; `seek` is not part of this model.
- Pager.Pager.Commit: delete-journal mode only; the log-mode branch, switching modes, `sync` and `set_page_size` are not modelled.
- Pager.Pager.Rollback: says nothing of pages that were never committed, and the page count stays, as in the code.
- Pager.OpenExisting: the file is not empty (an empty one is a new database, `Pager.Pager.Create`); nothing is said of the pages of a file whose first page is cut short.
- Pager.Pager.GetPage: delete-journal mode only; the look into the log is not modelled.
- Pager.Pager.WritePage: page numbers from 1 to the page count; the source caches any page number, and after a rollback would not find those above the count.
- WalRuns.Run: the two writes of one append are taken together, and fewer than 2^32 - 1 checkpoints may stop between new salts and cut without a completed one resetting the count.
- Wal.Wal.AppendFrame: requires a page number above 0; the source takes page 0, recovery passes it over, and a checkpoint has no place to copy it to.
- Record.EncodeRecord: requires lengths that the varint format carries, below 2^55 bytes for a text or blob, and texts that are valid UTF-8.
- Record.LoadHeader: a header length near 2^64, on which the source overflows, counts as longer than the data.
- Values.Compare: NaN and mixed integers and floats are as the float parameters have them; no order is proved for them.
- Vdbe.Vdbe.Execute: the opcodes of `VirtualMachine.Exec`.
- VirtualMachine.Exec: opcodes that no modelled compiler emits, row insertion with a new rowid, `last_insert_rowid` and PRAGMA are not modelled; a zero divisor, on which the source stops the process, is an error.
- SelectRun.SelectRuns: requires at most two tables, as a third is opened but never scanned, and grouped rows at least as wide as the select list, as a wider list shows leftover registers (`SelectRun.WideIff` says when).
- SelectMeaning.SelectMeans: requires columns only as select items or direct operands, no `%`, and no null that misleads a condition, because elsewhere the code reads null, may stop, or differs from SQL; `SelectRun.SelectRuns` has no such restriction. Queries with GROUP BY or aggregates are the subject of `GroupMeaning.GroupedMeans` and `GroupLimits.UngroupedExact`.
- SelectMeaning.SelectAnswers: the same restrictions on columns, `%` and nulls.
- GroupMeaning.GroupedMeans: the restrictions of `SelectMeaning.SelectMeans` and `SelectRun.SelectRuns`; the comparison with SQL is made for select lists in order and keys told apart by their texts, which `GroupItems.ShownExact` and `GroupMeaning.GroupsExact` show to be where keys and places are right.
- GroupLimits.UngroupedExact: the same restrictions; SQL leaves open which row of a group is shown, and the last is taken.
- DmlRun.DmlRuns: requires right-hand sides of one instruction, because the scratch registers of longer ones overlap the loaded columns.
- DmlMeaning.UpdateExact: requires a condition that is a column or plain expression, or a test of one against a plain expression, and no null that misleads it; `DmlMeaning.UpdateBy` has only the restriction that the condition is without unary minus, which would see the previous row in register 0.
- DmlMeaning.DeleteExact: the same restrictions; `DmlMeaning.DeleteBy` describes the other conditions.
- Statements.ExecSelect: the restrictions of `SelectRun.SelectRuns`.
- Statements.ExecUpdate: right-hand sides of one instruction, as `DmlRun.DmlRuns`.
- CompileExpr.SqlBinary: LIKE, NOT LIKE and the bit operators get no meaning; arithmetic and the joining of texts on operands that are there are the engine's own.
- VirtualMachine.StoreRow: stands for a replacement without a leaf split, as `Btree.Btree.Replace` proves it for a stored rowid with room.
- Grouping.Finalize: a count is taken to stay below 2^63.
- INSERT, DISTINCT, HAVING, LIMIT, OFFSET, subqueries, outer joins and transactions statements: not modelled.
- CompileDml.EmitDml: one method for the two compilers, whose loops are the same; the change in the middle is a parameter.
- DdlParser.Parser.ParseColumnDef: refuses DEFAULT, whose value is an expression.
- DdlParser.Parser.ParseCreateTable: refuses columns with DEFAULT.
- DdlParser.ParseOne: CREATE TABLE and CREATE INDEX only.
- SelectPlan.CollectFromIs: `collect_from` and `build_select_plan` are functions on lists; the source pushes to lists in place.
- Ddl.Parse: starts from tokens; CREATE statements only; DEFAULT values are not parsed, and the lexer is not part of this model, so names are taken to be plain identifiers.
- Schema.Schema.CreateTable: the schema table is a list of rows that always has room, the page of the new tree is given, and lower case is taken on ASCII letters.
- Schema.Schema.CreateIndex: the index tree gets no entries, and the schema row always has room.
- CursorEdits.StoreCurrent: the same length, or room in the leaf, as `Btree.Btree.Replace`.
- Locks, threads, Unix files, `sync` calls, the command line and error message texts: not modelled; errors are told apart by kind.
