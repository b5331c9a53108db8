# A verified model of am-db

am-db is a small SQL database over a key-value store. This project models the parts of it
that carry its promises and proves them:

* **The B+ tree index and its iterators.** `BptNode.dfy`, `Bptree.dfy` and `TreeIterator.dfy`
  are the classes of the index, with the containers, statistics, lazily re-read leaves and
  unsaved nodes they update in place. `TreeState.dfy` and `TreeOps.dfy` say what every step
  does to the tree as a value, `Forest.dfy` what rows of leaves mean, `ScanSpec.dfy` what a
  scan returns. `Statements.dfy` and `Index.dfy` hold the index with its statements of many
  rows, and `IndexRuns.dfy` puts it together: every run of operations, saves and re-openings
  gets the answers of a finite map. `UnsavedUpdates.dfy`, `UnsavedRows.dfy`, `UnsavedKeys.dfy`
  and `KeyVisits.dfy` say exactly when the rows and keys of one statement, which are not saved
  one by one, do what they do to a finite map; `NodeIds.dfy` says exactly when a tree may give
  out an id again, `LeafSizes.dfy` when a leaf is split and into what; `TreeExamples.dfy` shows
  inputs on which the rows and keys go wrong.
* **Tables** (`TableSpec.dfy`, `Table.dfy`): the records of the rows and the primary index in
  one store, statements of many rows, full-table queries, descriptions loaded anew, and exactly
  when all this is a map of rows. `InsertRuns.dfy` shows that tables that rows are only inserted
  into need no condition, `Reloads.dfy` what a newly loaded description does to the others.
* **The Cascades optimizer.** `RelPlan.dfy` holds plans and rules, `CascadesModel.dfy` the
  task machine as a value, `CascadesMemo.dfy` and `CascadesOptimizer.dfy` the classes.
  `CascadesRun.dfy` follows a run from start to end, `CascadesInv.dfy` and
  `CascadesWinners.dfy` state what every single task keeps.
* **Equi-height histograms** (`Histogram.dfy`), with exact numbers.
* **Ids, keys and rows.** `IdAllocator.dfy`, `KeySpace.dfy`, `Codec.dfy`, `LeafCodec.dfy` and
  `RowCodec.dfy`; `CellBytes.dfy` says what cells, rows and keys are in literal bytes.
* **String literals** (`StringLiteral.dfy`): masking and unescaping in place.

`dafny verify dfyconfig.toml` checks everything.

## How the model is built

Strings are sequences of bytes. The key-value store is a map: of node records for an index, of
row records for a table, of counters for the allocator; that these never share a key is
`KeysDistinct` and `RecordsApartFromNodes`. Encoders that append to a buffer are functions giving
the bytes they append. A `std::map` inside a node is a strictly sorted sequence of entries, its binary
searches are `LowerBound` and `UpperBound`. A value that may be missing is an `Option`
(`Options.dfy`). Node sizes and the root's count wrap at 64 bits; node ids, expression ids and
counters do not.

The tree object carries its abstract state as a ghost field. Its methods are proved to keep
the objects in memory and the records in storage in step with that state (`Linked`), and to
take it where `AfterInsert`, `AfterDelete`, `AfterGet` and `AfterSave` say. They ask only for
what no update can break (`WellFormed`), whatever happened since the last save and whatever ids
were given out. What the steps do to the content is then proved about the values, where
re-reading the leaf changes nothing (`InsertReady`, `LookupReady`) and a leaf that is split off
gets the id of no other (`TakesFreeId`, which `Fresh` trees always meet).

Where the code does not do what its own documentation says, the model follows the code:

* The iterator's bound test looks at `lower_open` where the documented range meaning needs
  `upper_open` (`amdb/sql/storage/bplus_tree_iterator.cc:154`). `ScanIsBetween` says what is
  returned for every range, `ScanMeetsRangeIff` when this is the documented range. The closed
  range of one stored key returns nothing (`ClosedRangeMissesKey`), the open range below it
  returns it (`OpenRangeTakesBound`).
* Re-reading a node merges the stored entries into those in memory, so an update after an
  unsaved split or deletion can bring old keys back. A statement of any number of new rows is
  right exactly when every row finds its leaf settled (`RowsRightIff`; `RowsReadyIff` spells that
  out without recursion, `TwoRowsRightIff` for two rows). A statement that deletes any list of
  keys is right exactly when every key that shares its leaf is the last one searched there
  (`KeysRightIff`); for keys that are there this means that no two different ones are in one
  leaf (`PresentKeysRightIff`), and `TwoKeysRightIff` covers any two keys. `MovedRowIsBack` and
  `DeletedKeyIsBack` show how it fails.
* A root that had to be split would be cut by the number of its key-value pairs, which is
  zero, and then read the first of no children. An insertion that gets there answers
  `Undefined`, and nothing is promised of what it leaves; `RootDueIff` and `InsertedWf` give the
  exact condition. Keys of at most 8192 bytes never meet it (`SmallKeysNeverDue`), three rows
  with keys of 9001 bytes do (`LongKeysMakeRootDue`).
* The largest node id is recorded in the description of the index in memory only
  (`amdb/sql/storage/index.cc:76`), while every statement of the program loads the description
  that was stored when the table was created (`amdb/sql/analyzer/insert_analyzer.cc:40-41`), whose
  largest id is that of the root. `ReloadInfo` is that step. A leaf split off may then get the id
  of another one, and of the two only one is saved: `InsertStoredIff` says exactly when an
  insertion survives its save, `OneRowRunRightIff` when a whole run of one-row statements is
  right. A new first leaf may re-read what an unlinked one left under its id
  (`NewLeafReadyIff`, `TwoNewRowsRightIff`), and `DeletedRowIsListed` shows a deleted row that the
  index lists again. Tables that rows are only inserted into never get there
  (`InsertRunsReady`), and no executor deletes rows.
* A stored description has no column types (`amdb/sql/schema/schema.cc:6-22`). After loading it
  the range of a query is that of 64-bit integers, whatever the keys are, so a table with keys
  of any other type looks empty (`FullRangeSelects`; `planned` is the type a range is made for).
* A table scan opens its iterator anew for every chunk
  (`amdb/sql/executor/table_scan_executor.cc:43-47`): every chunk of a one-range scan is the first
  page over again, and no row behind it is ever seen (`Chunks`).
* The records of an insertion are written before the index refuses a repeated key, so a
  refused row replaces the stored one (`RefusedRowOverwrites`). `TableInsertIff` and
  `TableIsMapIff` say exactly when a table still is a map of rows.
* The allocator works on a copy of its bucket table
  (`amdb/sql/storage/id_allocator.cc:56`), so nothing it fetched is ever remembered.
* The planner's smallest 64-bit key is 0, and the shorter signed types have a lower end that
  encodes above their upper end. `FullRangeSelects` says which rows a query can see;
  `QueryMissesRow` shows two that it cannot.
* There is no decoder for 8-bit signed integers; `RowRoundTripIff` says what that means, and
  `Int8RowIsLost` gives a row.
* A literal in which a two-byte character already ends in the masking byte is changed when
  anything in the statement was masked; `GbkLiteralIff` gives the exact condition,
  `MaskedTrailIsLost` a literal.
* When some operator of a plan is known to no rule, its group gets no winner and the code
  reads a winner that is not there; the model returns `None` in exactly these cases.

## Model

| member | source | states |
|---|---|---|
| Tables.Run | amdb/sql/storage/table.cc:30-106 | For every sequence of statements on a new table, each inserting or deleting any number of rows, querying the whole table or loading the description anew, each on a newly opened index, and each finding the leaves of its rows settled and the ids of its new leaves free: every insertion is refused exactly when a key is there or repeated, and every query returns the visible rows in key order, of the map of rows in which a refused insertion overwrites the rows it repeats |
| Tables.TableIsMapIff | amdb/sql/storage/table.cc:53-81 | All through a run the table is the plain map of rows exactly when every insertion that is refused repeats, for each key it shares with the table, the row that is there |
| Tables.OneRowRunsReady | amdb/sql/storage/table.cc:30-43 | Runs of statements of at most one row that keep one description of the table are always ready, and storage then refines the map of rows |
| InsertRuns.InsertRunsReady | amdb/sql/storage/table.cc:30-35 | Every run of insertions of any number of rows, queries and newly loaded descriptions is ready, with no condition: the size kept for a leaf of empty values and keys of one length never grows, so the table stays within one leaf |
| InsertRuns.RunInserts | amdb/sql/storage/table.cc:30-81 | Every such run gets the answers of the map of rows, refused insertions overwriting |
| InsertRuns.DeleteAfterInsertsIff | amdb/sql/storage/table.cc:83-106 | On a table built by insertions, deleting different rows that are there is ready, and does what it does to a map, exactly when it is at most one row |
| Reloads.OneRowRunRightIff | amdb/sql/storage/index.cc:9-14 | A run of statements of at most one row, with the description loaded anew at any points, is right all along (tree, records and map of rows in step after every statement) exactly when no insertion splits off a leaf under the id of another one |
| Reloads.OneRowRightIff | amdb/sql/storage/index.cc:47-78 | Inserting one row into an intact table, whatever largest id its description has, leaves the table with that row exactly when it is ready |
| Reloads.DeletedRowIsListed | amdb/sql/storage/index.cc:69-77 | A row is inserted and deleted again, the description is loaded anew, and two other rows come in one statement: the index lists the first row, whose record is gone |
| Tables.TableStore.Reload | amdb/sql/schema/schema.cc:38-57 | The loaded description has the largest node id of table creation and no column type; the stored tree is the same |
| Tables.TableStore.Insert | amdb/sql/storage/table.cc:53-81 | On any stored table: all records are written first; the rows go into the index up to the first refused one; only a statement that goes through is saved |
| Tables.TableStore.Delete | amdb/sql/storage/table.cc:83-106 | On any stored table: the rows leave the index, then their records go, then the index is saved |
| Tables.TableStore.Select | amdb/sql/storage/table_iterator.cc:8-46 | A full-table query returns exactly the visible rows in the order of their primary keys, each as its record is read back, for every page size from 1 on |
| Tables.TableStore.ReadPage | amdb/sql/storage/table_iterator.cc:23-42 | Index keys lead to records; a missing record is reported |
| Tables.SeenKeys | amdb/sql/analyzer/select_analyzer.cc:33-45 | The entries of the planned range are the index keys of the visible rows in ascending order; none when the range was planned for another type |
| Tables.ReadBackIff | amdb/sql/codec/rc_codec.cc:93-115 | A stored row is returned as it was inserted exactly when it has no 8-bit signed integer |
| TableSpec.InsertAtRest | amdb/sql/storage/table.cc:30-81 | Whatever rows a statement brings, settled or not, none makes the root due for a split, and what is saved can be opened again |
| TableSpec.StatementMeaning | amdb/sql/storage/table.cc:30-106 | One statement that is ready, on storage that refines a map of rows, leaves storage that refines the map after it, with ids, records and tree in step, also when it is refused |
| TableSpec.TableInsertIff | amdb/sql/storage/table.cc:53-81 | One insertion does to a table what it does to a map of rows exactly when it goes through, or repeats the rows it finds |
| TableSpec.RefusedRowOverwrites | amdb/sql/storage/table.cc:67-78 | A refused row replaces the row with its key |
| TableSpec.InsertedIndexRows | amdb/sql/storage/index.cc:47-78 | The index refuses a statement exactly when a primary key is there or comes twice, and otherwise gains exactly its keys |
| TableSpec.WriteKeeps | amdb/sql/storage/table.cc:53-70 | After a batch of records every row has the record of its last version |
| TableSpec.RecordsApartFromNodes | amdb/sql/codec/schema_codec.cc:86-121 | Records and tree nodes never share a key of the store |
| IndexRuns.Run | amdb/sql/storage/table.cc:30-43 | For every sequence of insertions and deletions of one row, lookups, multi-range scans and re-openings on an empty index that is kept open, each update that succeeds saved before the next operation, every outcome is the one a finite map gives: duplicate or stored, removed exactly that key, the stored value or none, all rows of the ranges in key order on full pages and one short last page |
| IndexRuns.Perform | amdb/sql/storage/table.cc:30-43 | One such operation, with its save when it succeeds, answers as the map does and leaves an index whose content is the map after the operation |
| IndexRuns.ScanRanges | amdb/sql/storage/iterator.cc:10-49 | Opening and paging until the end code terminates for every list of half-open ranges and every page size from 1 on; the pages concatenate to the rows of the ranges in range order, every page is full except the last |
| IndexRuns.Chunks | amdb/sql/executor/table_scan_executor.cc:28-52 | A table scan over one range, for any number of chunks and any page size: every chunk is the first page of the rows of the range |
| IndexRuns.Reopen | amdb/sql/storage/index.cc:9-32 | A tree built anew from the saved records, with ids continuing from the carried-over maximum, has the same content and gives out new ids only |
| IndexRuns.LeavesInKeyOrder | amdb/sql/storage/bplus_tree_node.h:119-131 | The entries of the leaves, left to right, are the entries of the abstract map in key order |
| Indexes.Index.Insert | amdb/sql/storage/index.cc:47-78 | A statement of many rows on any well-formed tree: row after row, each re-reading its leaf, up to the first that is refused or makes the root due for a split, after which nothing is promised; the largest node id is recorded only when all rows go in. For rows that are ready this is what happens to a finite map |
| Indexes.Index.Delete | amdb/sql/storage/index.cc:80-103 | A statement that deletes many keys, likewise; it stops at a leaf that cannot be re-read |
| Indexes.Index.constructor | amdb/sql/storage/index.cc:9-32 | Opening any saved tree, whatever largest id is recorded, builds what storage describes; an intact tree keeps its content, and its new ids are new when the maximum was carried over |
| Indexes.Index.Save | amdb/sql/storage/index.cc:42-45 | Saves the tree, whose content stays and whose leaves are settled afterwards |
| Statements.QuietRowsAreReady | amdb/sql/storage/index.cc:69-74 | Rows after a save find their leaves settled when no row but the last splits a leaf |
| Statements.RowsReadyIff | amdb/sql/storage/index.cc:69-74 | Without recursion: rows are ready exactly when every row that is reached finds its leaf settled and splits off no leaf under an id in use |
| Statements.RowsMeaning | amdb/sql/storage/index.cc:69-77 | Rows that are ready go in as into a finite map, up to the first duplicate |
| Statements.KeysMeaning | amdb/sql/storage/index.cc:94-102 | Keys that find their leaves settled and saved go out as from a finite map |
| Statements.SmallRowsFit | amdb/sql/storage/bplus_tree_node.cc:408-419 | Rows with keys of at most half a node never make the root due for a split, from any well-formed tree |
| Bptrees.Bptree.Insert | amdb/sql/storage/bplus_tree.cc:12-64 | From any well-formed tree, saved or not, with keys of any 32-bit length: the routed leaf after re-reading decides on duplicates, the new state is `AfterInsert`, the error code of a key that is written but not held never occurs, and only a root due for a split leads on into undefined behaviour. When re-reading changes nothing and a leaf split off gets a free id: duplicate exactly when the tree holds the key, otherwise exactly that entry is added |
| Bptrees.Bptree.Delete | amdb/sql/storage/bplus_tree.cc:66-112 | From any well-formed tree: the error of a leaf that was never saved, otherwise success, and the new state is `AfterDelete`. When re-reading is possible and changes nothing, exactly the key is removed |
| Bptrees.Bptree.GetItem | amdb/sql/storage/bplus_tree.cc:114-133 | From any well-formed tree: the value the re-read leaf holds, or the error the code gives. When re-reading is possible and changes nothing: success exactly when the key is in the tree, with its value, and of the two errors the one for a missing leaf exactly when no leaf has the key in its range |
| Bptrees.Bptree.Save | amdb/sql/storage/bplus_tree_node.cc:36-46 | Writes exactly the unsaved nodes; afterwards storage decodes to the tree in memory and nothing is unsaved |
| Bptrees.Bptree.LoadChild | amdb/sql/storage/bplus_tree_node.cc:256-261 | Re-reading a leaf, whatever its state, merges its record into what it holds, or reports that there is none |
| Bptrees.Bptree.FixRoot | amdb/sql/storage/bplus_tree.cc:39-48 | Updating the root keeps memory and state in step, or reports, after an insertion, that it is due for a split, exactly when it is |
| Bptrees.Bptree.SplitAfterInsert | amdb/sql/storage/bplus_tree.cc:46-61 | The split round, whoever else has the new id: the left half keeps its place, the right half goes before the first leaf with a larger maximum, the right half and then the left one are collected, displacing leaves with their ids |
| Bptrees.OpenIndex | amdb/sql/storage/index.cc:16-31 | The objects built from the stored root record and its references are those of the re-opened state, for any recorded largest id |
| TreeOps.InsertMeaning | amdb/sql/storage/bplus_tree.cc:12-64 | Inserting an absent key of any 32-bit length into a leaf that re-reading does not change adds exactly that entry, whatever split is decided under a free id, keeps all structural invariants, and needs no save before the next operation when no leaf was split |
| TreeOps.InsertedWf | amdb/sql/storage/bplus_tree.cc:39-62 | After any insertion into any well-formed tree the tree is well-formed, and its root is due for a split exactly when it has three leaves or more whose outer keys exceed a node |
| TreeOps.DeletedWf | amdb/sql/storage/bplus_tree.cc:66-112 | Any deletion leaves a well-formed tree, also when an emptied leaf is not found by its maximum |
| TreeOps.DeleteMeaning | amdb/sql/storage/bplus_tree.cc:66-112 | Deleting removes exactly the key, present or not, and keeps all structural invariants, also when the leaf or the whole tree becomes empty |
| TreeOps.GetMeaning | amdb/sql/storage/bplus_tree.cc:114-133 | A lookup that finds no leaf, or a leaf without the key, means that the key is absent; otherwise the leaf holds the value of the map |
| TreeOps.GetStatusIs | amdb/sql/storage/bplus_tree.cc:114-133 | Which answer a lookup gives: success for a key of the tree, one error when some leaf has an absent key in its range, the other when none has |
| TreeOps.InsertStatusIs | amdb/sql/storage/bplus_tree_node.cc:138-154 | What the routed leaf holds after harmless re-reading decides whether the key is in the whole tree; a refused row changes no content |
| TreeOps.WrittenIsHeld | amdb/sql/storage/bplus_tree_node.cc:146-150 | In every well-formed tree a key that a leaf remembers as written is one it holds |
| TreeOps.RouteFits | amdb/sql/storage/bplus_tree.cc:19-21 | The leaf a key is routed to (the first whose maximum is not below it, else the last) is one where the key fits without touching its neighbours |
| TreeOps.FindFits | amdb/sql/storage/bplus_tree_node.cc:236-243 | The child search by key finds the one leaf whose range contains the key, or none when the key lies in a gap |
| TreeStates.InsertKeeps | amdb/sql/storage/bplus_tree_node.cc:344-365 | Adding a fitting absent key to a leaf keeps ordered, disjoint, non-empty leaves whose recorded minimum and maximum are their first and last keys, and adds exactly that entry |
| TreeStates.SplitKeeps | amdb/sql/storage/bplus_tree_node.cc:421-446 | Splitting a leaf of two or more keys under a free id keeps the invariant and the content, whatever the wrapping size field says; the search by its maximum puts the right half directly behind the left one |
| TreeStates.EraseKeeps | amdb/sql/storage/bplus_tree_node.cc:367-383 | Erasing one of several keys keeps the invariant, including the recorded range, and removes exactly that key |
| TreeStates.UnlinkKeeps | amdb/sql/storage/bplus_tree.cc:95-99 | Unlinking a leaf whose only key was deleted removes exactly that key |
| TreeStates.TouchRootKeeps | amdb/sql/storage/bplus_tree_node.cc:385-399 | After an update the root spans its leaves and all invariants hold |
| TreeStates.SmallKeysNeverDue | amdb/sql/storage/bplus_tree_node.cc:408-419 | With keys of at most half a node the root is never due for a split, so one interior level is all there is |
| TreeStates.RootDueIff | amdb/sql/storage/bplus_tree_node.cc:385-419 | For every well-formed tree with keys of any 32-bit length: the updated root is due for a split exactly when it has three leaves or more and their two outer keys together exceed the node limit |
| TreeExamples.LongKeysMakeRootDue | amdb/sql/storage/bplus_tree_node.cc:385-419 | Three saved leaves of one long key each and one more row: the insertion runs into the split of the root |
| TreeStates.SaveKeeps | amdb/sql/storage/bplus_tree_node.cc:36-46 | A save leaves the content alone, covers every reachable node, and makes re-reading any leaf harmless |
| TreeStates.ReopenKeeps | amdb/sql/storage/index.cc:9-32 | The re-opened state has the same leaves with the same ranges and entries, for every recorded largest id; new ids stay new when it is not below the one in use |
| NodeIds.InsertStoredIff | amdb/sql/storage/bplus_tree_node.cc:22-46 | For every intact saved tree, opened with any largest id: after inserting an absent key, saving and opening again the tree holds exactly one entry more exactly when no leaf was split or no leaf had the new id |
| NodeIds.NewLeafReadyIff | amdb/sql/storage/bplus_tree_node.cc:256-261 | The row after the first one in a tree without leaves may re-read the new leaf exactly when storage has no other key under its id |
| NodeIds.TwoNewRowsRightIff | amdb/sql/storage/index.cc:69-77 | Two rows in one statement on such a tree leave the leaves listing what a map has, with the same status, exactly then |
| TreeStates.LoadKeeps | amdb/sql/storage/bplus_tree_node.cc:256-261 | Re-reading a settled leaf brings its entries into memory, changes no content and keeps what is known about storage |
| Forest.RoutedLookup | amdb/sql/storage/bplus_tree.cc:17-32 | When a key fits at a leaf, it is in the tree exactly when it is in that leaf, with the same value |
| Forest.GapLookup | amdb/sql/storage/bplus_tree_node.cc:236-243 | A key outside every leaf range is not in the tree |
| Forest.FlattenSorted | amdb/sql/storage/bplus_tree_node.h:131-131 | Leaves in order give one strictly sorted sequence |
| Forest.InsertIntoLeaf | amdb/sql/storage/bplus_tree_node.cc:138-154 | Replacing a leaf by itself plus one fitting key adds exactly this entry to the whole |
| Forest.SplitLeaf | amdb/sql/storage/bplus_tree_node.cc:421-446 | Two neighbours that together hold the old entries leave order and content as they were |
| Forest.DropSingletonLeaf | amdb/sql/storage/bplus_tree_node.cc:197-202 | Taking out a leaf of one entry removes exactly that entry |
| Forest.DeleteFromLeaf | amdb/sql/storage/bplus_tree_node.cc:160-170 | Replacing a leaf by itself minus one key removes exactly this key from the whole |
| UnsavedUpdates.InsertNeedsNoSaveIff | amdb/sql/storage/bplus_tree_node.cc:256-261 | After an insertion into a saved tree, the next update may go ahead without a save exactly when no leaf was split, or the split leaf held two keys, both below the new one |
| UnsavedRows.RowsRightIff | amdb/sql/storage/index.cc:69-77 | A statement of any number of rows on a saved tree leaves the leaves listing exactly the rows a finite map has after it, in order and each once, with the same status, exactly when every row finds its leaf settled and none makes the root due for a split |
| UnsavedRows.TwoRowsRightIff | amdb/sql/storage/index.cc:69-77 | For two rows of which none makes the root due for a split: exactly when the first is a duplicate, splits no leaf, or splits a leaf of two keys above both, or the second goes elsewhere than to the left half |
| UnsavedRows.ExcessStays | amdb/sql/storage/index.cc:69-77 | Once the tree lists more entries than there are rows it does so at the end of the statement, whatever the further rows |
| UnsavedRows.RereadGrows | amdb/sql/storage/bplus_tree_node.cc:300-325 | Re-reading never loses an entry, and gains one exactly when the leaf is not settled |
| UnsavedKeys.DeleteReadyIff | amdb/sql/storage/bplus_tree.cc:66-112 | After a deletion from a saved tree, the next key finds its leaf settled exactly when the first was absent or alone in its leaf, or the next goes to another leaf |
| UnsavedKeys.TwoKeysRightIff | amdb/sql/storage/index.cc:94-102 | Deleting any two keys from a saved tree without a save between is right exactly then, or when the two are the same |
| KeyVisits.KeysRightIff | amdb/sql/storage/index.cc:94-102 | Deleting any list of keys from a saved tree, present or not, repeated or not, leaves the leaves listing what a finite map has after it, with success, exactly when every key that is in a leaf with others is the last one the statement searches in that leaf |
| KeyVisits.PresentKeysRightIff | amdb/sql/storage/index.cc:94-102 | For keys that are all there, repeated or not: exactly when no two different ones are in one leaf |
| KeyVisits.KeyStaysIff | amdb/sql/storage/bplus_tree_node.cc:300-325 | A key of a saved tree is there after any statement of deletions exactly when it was not deleted, or its leaf held others and was last searched for one of them; with its old value |
| UnsavedKeys.ApartKeysReady | amdb/sql/storage/index.cc:94-102 | Keys, present or not, none of which shares its leaf with an earlier one that is there, all find their leaves settled and saved |
| KeyVisits.OneOfTwoStays | amdb/sql/storage/bplus_tree_node.cc:300-325 | Of two keys of one saved leaf one is still there at the end, whatever keys the statement deletes |
| UnsavedKeys.FirstKeyIsBack | amdb/sql/storage/bplus_tree_node.cc:300-325 | A second deletion that goes to a leaf the first one shrank brings the first key back |
| TreeExamples.DeletedKeyIsBack | amdb/sql/storage/bplus_tree_node.cc:300-325 | A saved leaf of three keys: of two deleted ones the first is back |
| TreeExamples.MovedRowIsBack | amdb/sql/storage/bplus_tree_node.cc:300-325 | A saved leaf of two large rows: the third splits it, the fourth brings back the row that moved |
| UnsavedUpdates.CutKeepsOldKeysIff | amdb/sql/storage/bplus_tree_node.cc:421-437 | The left half of a split leaf contains all old keys exactly in that one case |
| UnsavedUpdates.NextRowReadyIff | amdb/sql/storage/bplus_tree.cc:19-25 | After an insertion into a saved tree, the next row finds its leaf as it should be exactly when no leaf was split, or in that two-key case, or when it goes to any other leaf than the left half |
| UnsavedUpdates.ReloadHarmlessIff | amdb/sql/storage/bplus_tree_node.cc:300-325 | Re-reading an unsaved leaf leaves it as it is exactly when all keys storage has for it are still its own |
| BptNodes.TreeCtx.PullUnsavedTreeNode | amdb/sql/storage/bplus_tree_node.cc:36-46 | Storage afterwards holds the record of every unsaved node and is unchanged elsewhere; the set is empty |
| BptNodes.BptNode.Insert | amdb/sql/storage/bplus_tree_node.cc:138-154 | Duplicate, error or stored, and the new contents of both containers |
| BptNodes.BptNode.Delete | amdb/sql/storage/bplus_tree_node.cc:160-170 | Success exactly when the key is held; it then leaves both containers |
| BptNodes.BptNode.GetItem | amdb/sql/storage/bplus_tree_node.cc:172-180 | Success exactly when the key is held, with its value |
| BptNodes.BptNode.LoadNodeFromKvStorage | amdb/sql/storage/bplus_tree_node.cc:256-261 | Stored entries are merged: held keys keep their value, all others come back |
| BptNodes.BptNode.AddChild | amdb/sql/storage/bplus_tree_node.cc:192-195 | The child is placed before the first sibling with a larger maximum |
| BptNodes.BptNode.DelChild | amdb/sql/storage/bplus_tree_node.cc:197-202 | The child the search finds is taken out, none otherwise |
| BptNodes.BptNode.FindChild | amdb/sql/storage/bplus_tree_node.cc:236-243 | First child whose maximum is not below the key, provided its minimum is not above it |
| BptNodes.BptNode.UpdateStatByAddKv | amdb/sql/storage/bplus_tree_node.cc:344-365 | New statistics, with 64-bit wrap-around |
| BptNodes.BptNode.UpdateStatByDelKv | amdb/sql/storage/bplus_tree_node.cc:367-383 | New statistics, with 64-bit wrap-around |
| BptNodes.BptNode.UpdateStatByRangeChange | amdb/sql/storage/bplus_tree_node.cc:385-399 | The node spans its first to its last child; size and count follow |
| BptNodes.BptNode.Split | amdb/sql/storage/bplus_tree_node.cc:422-446 | On a leaf: the loop that moves entries one by one cuts it into two halves that make up the old entries, of which the left one has as many as the right one, or one more; both halves get their first and last keys as range |
| LeafSizes.InsertSplitsEvenly | amdb/sql/storage/bplus_tree_node.cc:421-446 | When an insertion splits a leaf, the two halves side by side hold the old entries and the new one in order, the left one as many as the right one, or one more |
| LeafSizes.InsertSplitsIff | amdb/sql/storage/bplus_tree_node.cc:408-419 | A leaf whose size is what it weighs (first key, last key, all values, and 20) is split by an insertion exactly when it then holds three entries or more and weighs more than 16384; otherwise its statistics stay right |
| LeafSizes.FirstLeafWeighs | amdb/sql/storage/bplus_tree_node.cc:344-354 | The first leaf of a tree has the size it weighs |
| LeafSizes.AddWeighs | amdb/sql/storage/bplus_tree_node.cc:344-365 | A new entry keeps a right size right, for all keys and values, at both ends and between |
| LeafSizes.DeletionDrifts | amdb/sql/storage/bplus_tree_node.cc:367-383 | How far the size is off after a deletion: the value stays in it, and the successor of a boundary key is not added |
| LeafSizes.HalvesSizes | amdb/sql/storage/bplus_tree_node.cc:428-446 | After a split the right half has the size of its keys and values, the left one the rest |
| LeafSizes.RootCountAfterInsert | amdb/sql/storage/bplus_tree_node.cc:398-398 | Every insertion counts one at the root |
| LeafSizes.RootCountAfterDelete | amdb/sql/storage/bplus_tree_node.cc:398-406 | Every deletion of a key counts it off, and an empty tree starts at zero |
| BptNodes.BptNode.Serialize | amdb/sql/storage/bplus_tree_node.cc:270-298 | The record of a leaf or of the root |
| LeafCodec.SerializeLeaf | amdb/sql/storage/bplus_tree_node.cc:271-280 | Keys and values of all entries as two streams of length-prefixed strings |
| LeafCodec.StreamsInOrder | amdb/sql/storage/bplus_tree_node.cc:271-280 | Each stream is one string behind the other in the order of the entries |
| LeafCodec.DeserializeLeaf | amdb/sql/storage/bplus_tree_node.cc:300-325 | The reading loop merges the decoded entries, first come first kept |
| LeafCodec.LeafRoundTrip | amdb/sql/storage/bplus_tree_node.cc:270-325 | Decoding the two streams gives back the entries, for all entries of 32-bit lengths |
| OrderedMap.MergeIsNoOpIff | amdb/sql/storage/bplus_tree_node.cc:324-324 | Re-reading stored entries leaves a container as it is exactly when all stored keys are held |
| OrderedMap.MergeKeys | amdb/sql/storage/bplus_tree_node.cc:324-324 | After a merge exactly the held and the stored keys are held |
| OrderedMap.MergeSpec | amdb/sql/storage/bplus_tree_node.cc:324-324 | A merge adds what is new and changes nothing that is held |
| OrderedMap.SortedUnique | amdb/sql/storage/bplus_tree_node.cc:276-279 | A strictly sorted list of entries is determined by its map |
| OrderedMap.EmplaceSpec | amdb/sql/storage/bplus_tree_node.cc:152-152 | Inserting at the lower bound keeps the order; a present key wins over the new one |
| OrderedMap.EraseSpec | amdb/sql/storage/bplus_tree_node.cc:163-164 | Erasing keeps the order and removes exactly the key |
| DataOrder.DataCmp | amdb/sql/storage/data_cmp.h:7-20 | The byte order is that of base-257 fractions, hence total and transitive; equality is equality of the strings |
| DataOrder.LexicographicIs | amdb/sql/storage/data_cmp.h:7-20 | The first byte in which two strings differ decides, and without one the shorter string comes first |
| ScanSpec.ScanIsBetween | amdb/sql/storage/bplus_tree_iterator.cc:5-159 | For every kind of range, a scan returns exactly the entries between the bounds in key order, the upper bound being included as `Inclusive` says |
| ScanSpec.HalfOpenScan | amdb/sql/storage/bplus_tree_iterator.h:10-15 | For half-open ranges a scan is exactly the documented range |
| ScanSpec.ScanMeetsRangeIff | amdb/sql/storage/bplus_tree_iterator.cc:152-159 | For every range: the scan is the documented range exactly when the range is half-open, or its upper bound is no key inside it, or, with both ends open, a further leaf starts at the upper bound |
| ScanSpec.ClosedRangeMissesKey | amdb/sql/storage/bplus_tree_iterator.cc:152-159 | On a tree of one row the closed range of its key returns nothing |
| ScanSpec.OpenRangeTakesBound | amdb/sql/storage/bplus_tree_iterator.cc:152-159 | On a tree of one row the open range below its key returns it |
| TreeIterators.BptIterator.Open | amdb/sql/storage/bplus_tree_iterator.cc:5-38 | The cursor stands before exactly the entries of the scan, or the end status says there are none |
| TreeIterators.BptIterator.HashNext | amdb/sql/storage/bplus_tree_iterator.cc:40-46 | False only when nothing is left; and when the bound was compared, it was with an entry, the next one to hand out, so the assertion in `reachRangeBound` holds |
| TreeIterators.BptIterator.Next | amdb/sql/storage/bplus_tree_iterator.cc:48-81 | Hands out the next entries up to the wanted number, fewer only at the end of the range; nothing is lost or repeated |
| TreeIterators.BptIterator.NextLeafNode | amdb/sql/storage/bplus_tree_iterator.cc:95-150 | From the end of a leaf to the next leaf, or to the end exactly when nothing is left |
| TreeIterators.BaseIterator.Open | amdb/sql/storage/iterator.cc:10-29 | Skips ranges without entries; the end code is set when none is left |
| TreeIterators.BaseIterator.Next | amdb/sql/storage/iterator.cc:31-49 | Fills a page from as many ranges as needed; it is short only when the end code is set and everything has been handed out |
| TreeIterators.BaseIterator.AddRange | amdb/sql/storage/iterator.cc:51-70 | Encodes the cells of both ends, each as type code and value, and appends the range |
| CascadesOptimizer.Optimize | amdb/sql/optimizer/planner.cc:12-12 | For every logical plan of any shape and arity: the tree of the same shape with each operator replaced by its physical counterpart, which keeps table, ranges, both filter lists and conditions, and no plan to read exactly when some operator has none |
| RelPlan.PhysicalSaysSame | amdb/sql/optimizer/rules/enumerable_table_scan_rule.cc:17-29 | The physical plan is the one plan that says the same node for node: the table, the ranges and each of the two lists of filters in its own place, the conditions |
| CascadesModel.WinnerAfterInputs | amdb/sql/optimizer/cascades/optimize_inputs_task.cc:51-109 | An expression whose inputs are done becomes winner exactly when its group has none, an impossible one, or one that costs more than its inputs together; every part of every cost counts |
| CascadesOptimizer.Cascades.FindBestExp | amdb/sql/optimizer/cascades/cascades.cc:20-26 | The same for the optimizer object: the memo is filled, the stack runs empty, the winners give the plan |
| CascadesOptimizer.Cascades.FireOptimizeTask | amdb/sql/optimizer/cascades/cascades.cc:33-46 | The stack loop terminates, after exactly the number of tasks the plan determines |
| CascadesOptimizer.Cascades.Execute | amdb/sql/optimizer/cascades/cascades.cc:38-42 | Every task changes memo and bookkeeping, and pushes tasks, as the task machine says |
| CascadesOptimizer.Cascades.ExecuteOptimizeGroup | amdb/sql/optimizer/cascades/optimize_group_task.cc:15-43 | Nothing for a group with a winner, else its logical members and then its physical ones |
| CascadesOptimizer.Cascades.ExecuteOptimizeExpr | amdb/sql/optimizer/cascades/optimize_expr_task.cc:37-61 | For each unfired rule that fits, the rule below the exploration of the inputs |
| CascadesOptimizer.Cascades.ExecuteExploreGroup | amdb/sql/optimizer/cascades/explore_group_task.cc:11-32 | Explores a group once |
| CascadesOptimizer.Cascades.ExecuteApplyRule | amdb/sql/optimizer/cascades/apply_rule_task.cc:107-146 | Adds what the rule makes of every binding to the group, once, and marks the rule |
| CascadesOptimizer.Cascades.ExecuteOptimizeInputs | amdb/sql/optimizer/cascades/optimize_inputs_task.cc:51-109 | The resumable task: asks for one input after the other, then takes part in the group as winner if it is first or cheaper |
| CascadesOptimizer.Cascades.MatchNodeInner | amdb/sql/optimizer/cascades/apply_rule_task.cc:15-57 | The recursive matching collects exactly the bindings of the matcher |
| CascadesMemo.Memo.InitMemo | amdb/sql/optimizer/cascades/memo.cc:111-127 | Entering a plan bottom-up gives every node one expression and one group from one counter, larger than those of its inputs |
| CascadesMemo.Memo.AddNewGroupExpr | amdb/sql/optimizer/cascades/memo.cc:129-159 | A new expression over the placeholder groups joins the group; without a group nothing happens |
| CascadesMemo.Memo.AddExprToGroup | amdb/sql/optimizer/cascades/memo.cc:161-169 | The expression joins its group, which is created when missing |
| CascadesMemo.Memo.GetAllExprsInGroup | amdb/sql/optimizer/cascades/memo.cc:21-33 | The members in ascending order |
| CascadesMemo.Memo.UpdateWinner | amdb/sql/optimizer/cascades/memo.cc:70-83 | Sets the winner of one group and changes nothing else |
| CascadesMemo.Memo.GetBestPlan | amdb/sql/optimizer/cascades/memo.cc:85-107 | Reads winner over winners, top-down, and terminates because inputs are older groups |
| CascadesRun.OptimizerRun | amdb/sql/optimizer/cascades/cascades.cc:20-46 | The whole run as a value: the stack is empty after `StepCount` tasks, the best plan is the physical counterpart, there is one group per node |
| CascadesRun.GroupRun | amdb/sql/optimizer/cascades/optimize_group_task.cc:15-43 | Executing the task of a fresh group with everything it leads to takes the determined number of steps, gives its winner, and changes nothing outside its part of the plan |
| CascadesRun.ConvertibleCounts | amdb/sql/optimizer/cascades/cascades.cc:33-46 | For a plan of n known operators: n expressions are added, so 2n in all, and 9n-4 tasks are executed |
| CascadesRun.BestPlanOf | amdb/sql/optimizer/cascades/memo.cc:94-107 | What is read from an optimized group is the physical counterpart of its plan |
| CascadesRun.EnteredIsFresh | amdb/sql/optimizer/cascades/memo.cc:111-127 | Right after entering, every group holds its one logical expression, unfired and without winner |
| CascadesInv.StepKeepsOk | amdb/sql/optimizer/cascades/cascades.cc:36-43 | Every single task, in every consistent state, keeps: ids distinct from one counter, group of an expression and members of a group agreeing, inputs in older groups, winners physical members of their group, pending tasks meaningful; and nothing is ever removed, winners included |
| CascadesInv.EveryStateOk | amdb/sql/optimizer/cascades/cascades.cc:33-46 | All this holds in every state the optimizer passes through |
| CascadesInv.ApplyOk | amdb/sql/optimizer/cascades/apply_rule_task.cc:107-146 | A rule is applied at most once to an expression, and a rule that fires adds exactly one physical member to the group |
| CascadesWinners.StepKeepsReady | amdb/sql/optimizer/cascades/optimize_inputs_task.cc:51-109 | Every step keeps, for known operators: the inputs of every winner have winners, an inputs task is past inputs that have winners, and the input it waits for is promised by tasks above it |
| CascadesWinners.EveryStateReady | amdb/sql/optimizer/cascades/optimize_inputs_task.cc:51-109 | All this holds in every state of the run on a plan of known operators |
| CascadesWinners.WinnersReadable | amdb/sql/optimizer/cascades/memo.cc:94-107 | Whenever a group has a winner, a complete plan can be read from it: no missing winner is ever read |
| CascadesWinners.EmptyStackHasPlan | amdb/sql/optimizer/cascades/cascades.cc:20-26 | Once the stack is empty the group asked for has a readable plan |
| Histogram.BuildHistogram | amdb/sql/statistics/histogram.cc:9-54 | The pass yields the equi-height histogram: every bucket describes a contiguous run and ends where the running total is nearest to its share among all later ends, ties to the larger |
| Histogram.SharesAreEqual | amdb/sql/statistics/histogram.cc:16-46 | The shares the buckets aim at are equal and add up to the total |
| Histogram.HistogramUnique | amdb/sql/statistics/histogram.cc:27-52 | There is only one such histogram |
| Histogram.AtMostBucketSize | amdb/sql/statistics/histogram.cc:47-47 | At most the asked-for number of buckets |
| Histogram.CountsAddUp | amdb/sql/statistics/histogram.cc:28-44 | After every bucket the counts so far are those of the values so far; in the end all values and the total are accounted for |
| Histogram.BucketsInOrder | amdb/sql/statistics/histogram.cc:39-51 | Start before end before the next start, positive counts, cumulative frequency rising to exactly one |
| Histogram.EveryValueInOneBucket | amdb/sql/statistics/histogram.cc:27-52 | Every value lies in the range of the bucket that counts it and in no other |
| IdAllocation.Serve | amdb/sql/storage/id_allocator.cc:37-82 | Over every sequence of requests, types, keys and batch sizes, with the allocator rebuilt at any point: each request gets min(batch, capacity) ids, all at least 1; no id is given out twice for a type, and the n-th id of a type that bucket b gives out is capacity * (n - 1) + b + 1 |
| IdAllocation.IdAllocator.BatchAllocateID | amdb/sql/storage/id_allocator.cc:44-82 | The next ids of the bucket, none skipped: the counter of the bucket moves by the capacity for each, and exactly these ids become used |
| IdAllocation.IdAllocator.AllocateID | amdb/sql/storage/id_allocator.cc:37-42 | The next id of the bucket, and no other becomes used |
| IdAllocation.IdAllocator.TakeIds | amdb/sql/storage/id_allocator.cc:48-54 | The loop gives out ids a capacity apart while some are left and wanted |
| IdAllocation.CounterStore.Incrby | amdb/sql/storage/leveldb_client.cc:101-122 | Adds to a counter, a missing one counting as zero |
| IdAllocation.CounterKeys | amdb/sql/storage/id_allocator.cc:10-25 | Counters of different types or buckets have different keys |
| IdAllocation.CounterKeyInBytes | amdb/sql/storage/id_allocator.cc:10-25 | Owner ids zero, the tag 2, 3 or 4 by type, and the bucket as eight bytes |
| KeySpace.KeysDistinct | amdb/sql/codec/schema_codec.cc:6-121 | Two different items never share a key in the store, over all families, with exactly one kind of exception: column statistics whose column id reads as the tag and the length four of a row |
| KeySpace.SmallColumnsNeverClash | amdb/sql/codec/statistic_codec.cc:15-23 | With column ids below 2^56 no two items share a key |
| KeySpace.LargeColumnClashes | amdb/sql/codec/statistic_codec.cc:15-23 | A column id and a row that do share a key, in every table |
| KeySpace.KeyHasShape | amdb/sql/codec/schema_codec.cc:103-121 | Every key is two owner ids, a byte and the rest |
| KeySpace.KeyInBytes | amdb/sql/codec/schema_codec.cc:6-121 | The bytes of every family of keys: owner ids, tag, and every field read back from its place; column statistics have their tag behind the column id |
| Codec.BigEndianRoundTrip | amdb/sql/codec/codec.cc:61-71 | Decoding inverts encoding for every value of the width |
| Codec.BigEndianOnto | amdb/sql/codec/codec.cc:61-71 | Every byte string of the width is the encoding of what it decodes to |
| Codec.BigEndianOrder | amdb/sql/codec/codec.cc:61-71 | Encoded unsigned integers compare as the integers do |
| Codec.BigEndianBytes | amdb/sql/codec/codec.cc:61-71 | Byte after byte, the quotients by the powers of 256 |
| Codec.EncodedBytes | amdb/sql/codec/codec.cc:9-15 | A string stands behind the four bytes of its length |
| Codec.DecodeBytesInverts | amdb/sql/codec/codec.cc:9-25 | A length-prefixed string is read back, and the reader stops right after it |
| RowCodec.RowRoundTripIff | amdb/sql/codec/rc_codec.cc:73-115 | The value decoding loop gives back the row as encoded exactly when no cell is an 8-bit signed integer |
| RowCodec.EncodeRowValue | amdb/sql/codec/rc_codec.cc:83-89 | The encoding loop; what it writes is `IntegerInBytes`, `TextInBytes` and `RowInBytes` |
| CellBytes.IntegerInBytes | amdb/sql/codec/codec.cc:85-107 | An integer cell in bytes, by type: the type code, then one, four or eight bytes of two's complement, the most significant first |
| CellBytes.BitsCongruent | amdb/sql/codec/codec.cc:85-107 | The payload of a value is congruent to it, and has its bytes |
| CellBytes.PayloadIsValue | amdb/sql/codec/codec.cc:117-155 | Every string of as many bytes as the type has is the payload of a value of the type |
| CellBytes.MinusOneInBytes | amdb/sql/codec/codec.cc:103-105 | The 64-bit -1 is eight bytes 0xFF behind its code |
| CellBytes.TextInBytes | amdb/sql/codec/codec.cc:106-108 | A text cell is its code, four bytes of length and the text |
| CellBytes.RowInBytes | amdb/sql/codec/rc_codec.cc:83-89 | The cells of a row stand one behind the other |
| CellBytes.OtherCodesUnread | amdb/sql/codec/codec.cc:117-155 | No value is read for any other code than the six |
| CellBytes.RecordKeyInBytes | amdb/sql/codec/rc_codec.cc:76-81 | The record of a row: database, table, the tag 1, and the primary key in decimal notation behind its length |
| RowCodec.FitsIs | amdb/sql/expression/expr_value.cc:211-290 | The ranges of the six integer types in numbers |
| RowCodec.DecodeRowValue | amdb/sql/codec/rc_codec.cc:93-115 | The decoding loop with its running offset |
| RowCodec.CellRoundTrip | amdb/sql/codec/codec.cc:85-155 | One cell is read back and the reader stops right after it; only the 8-bit signed integer has no decoder |
| RowCodec.IndexLeadsToRow | amdb/sql/codec/rc_codec.cc:45-54 | For a single integer primary key, decoding the index key and encoding the data key gives the key under which the row is stored, for all types but the 8-bit signed one |
| RowCodec.IndexLeadsToRowIff | amdb/sql/storage/table_iterator.cc:23-36 | For integer primary keys of any number of columns: every column is read as the first one, and the data key made of that is the one of the row exactly when all columns hold the same number |
| RowCodec.RowsHaveOwnKeys | amdb/sql/codec/rc_codec.cc:76-81 | Rows of a table with different primary keys are stored under different keys |
| RowCodec.IndexOrder | amdb/sql/codec/rc_codec.cc:17-21 | Index keys of a type compare as the bits of their values do |
| CellBytes.KeysInValueOrder | amdb/sql/codec/rc_codec.cc:17-21 | Index keys of one type compare as the values do when these have one sign, and every negative value is above all others |
| RowCodec.FullRangeSelects | amdb/sql/analyzer/select_analyzer.cc:33-45 | The range the planner makes for a type covers, in numbers: 64-bit keys from 0 below 2^63 - 1, unsigned ones below their largest value, no key of the shorter signed types, and no key of any other type. A loaded description gives the range of 64-bit integers, whatever the keys are |
| CellBytes.FullRangeInBytes | amdb/sql/analyzer/select_analyzer.cc:33-45 | The ends of that range in bytes, for the two integer types a column is planned for |
| RowCodec.FullScanReturns | amdb/sql/analyzer/select_analyzer.cc:33-45 | A scan of a tree over such keys returns exactly the entries so covered |
| RowCodec.QueryMissesRow | amdb/sql/analyzer/select_analyzer.cc:33-45 | A table with the 32-bit key 5 alone, or the 64-bit key -1 alone, looks empty, even with the range of its own type |
| RowCodec.Int8RowIsLost | amdb/sql/codec/rc_codec.cc:93-115 | A row of one 8-bit signed 5 is read back without its value |
| StringLiteral.Text.StripSlashes | amdb/sql/parser/utils.h:83-118 | The two-pointer loop terminates, writes behind its reader only, leaves everything past the old end alone, and equals the pure unescaping of the original text, which is `StripInBytes` |
| StringLiteral.StripInBytes | amdb/sql/parser/utils.h:87-109 | The eight escapes and their images, the two wildcards that keep the backslash, every other byte, which loses it, in literal bytes and at every place of a text |
| StringLiteral.UnescapeInBytes | amdb/sql/parser/utils.h:87-109 | The same character by character |
| StringLiteral.CharactersInBytes | amdb/sql/parser/parser.cc:33-47 | A byte from 0x80 on takes the next one with it; as such a 0x5C is masked as 0x7F, and 0x7F unmasked as 0x5C |
| StringLiteral.Text.RestoreTrails | amdb/sql/parser/utils.h:69-82 | The in-place loop unmasks exactly the second bytes of two-byte characters |
| StringLiteral.SqlParser.MaskTrails | amdb/sql/parser/parser.cc:33-47 | The in-place loop masks exactly the second bytes that look like a backslash, and remembers whether there was one |
| StringLiteral.SqlParser.FinishLiteral | amdb/sql/parser/sql_lex.l:499-502 | Unescaped, and unmasked when the statement was masked |
| StringLiteral.GbkLiteralIff | amdb/sql/parser/sql_lex.l:494-505 | The pipeline of masking, unescaping and unmasking is unescaping character by character, two-byte characters untouched, exactly when nothing was masked or no character of the literal ends in the masking byte |
| StringLiteral.MaskedTrailIsLost | amdb/sql/parser/sql_lex.l:494-505 | A literal of two characters, one ending in a backslash, one in the masking byte: the second becomes the first |
| StringLiteral.ReadGbkLiteral | amdb/sql/parser/parser.cc:48-67 | The same for a literal at any place of a whole statement |
| StringLiteral.StripByChars | amdb/sql/parser/utils.h:83-118 | Byte-wise unescaping is character-wise when no second byte looks like a backslash |
| StringLiteral.StripUndoesEscape | amdb/sql/parser/utils.h:83-118 | Unescaping undoes escaping, for every text |
| StringLiteral.LiteralMasked | amdb/sql/parser/parser.cc:33-47 | Masking a statement masks a literal in it as if it stood alone |

## Left out

- LevelDB, protobuf wire formats, the arena, and the ownership of nodes and values by pointers: records are values, objects are simply allocated.
- Storage failures: a save always succeeds, and a read fails only when the record is missing.
- BptNodes.BptNode.Split: models the leaf branch. The interior branch moves all children of the root and then reads the first of none, so an insertion that would reach it has no defined outcome; `InsertedWf` says when that is, and the constructor of a root over two halves is not modelled either.
- Bptrees.Bptree.Insert: on leaves whose recorded maxima are out of order, which only rows after one that re-read an unsettled leaf can meet, the binary searches of the library may answer anything; the model takes the first leaf that fits.
- `BptNode::Update`, `Table::updateCore`, `Memo::mergeGroup`: stubs without effect; the table of merged groups and the table from nodes to expression ids are never read with effect and are not kept.
- The order in which unsaved nodes are written: they are collected and then stored at once.
- The queue of visited leaves in the iterator, which is filled and never read; the branches of the leaf walk for deeper trees, which a tree of one interior level never enters.
- Tables.Run: secondary indexes, tables whose primary key is a string or has several columns, and what queries answer after a statement that was not ready; what such a statement leaves is `Tables.TableStore.Insert` and `Tables.TableStore.Delete`, and when it goes wrong is `RowsRightIff`, `KeysRightIff`, `TwoKeysRightIff` and `OneRowRunRightIff`.
- Mutation of a tree while an iterator is open on it.
- Plan nodes as objects: plans are values, so the deletion of replaced inputs is not modelled.
- The cost model beyond sums of zeros: all costs are zero in the code, so no claim of cheapest plans is made; the comparison is kept.
- Matchers that look at an input the node does not have: the code would read out of bounds, the model finds no binding; no registered rule does so.
- The heuristic optimizer, which is declared without bodies; the resolver and the analyzers but for the range of a query, which copy names and ids from the parse tree into plans; the SQL grammar and AST printing, which no other part reads back; the executors but for the chunks of a table scan; and the scheduler, whose ports have no state transitions yet.
- Floating point: histogram boundaries and frequencies are exact; comparisons within an epsilon, Float and Double cells are not modelled.
- Null cells and string primary keys in index decoding: the code does not read them back.
- Malformed row values: the code reads past the end; the decoders of the model return `None`.
- Literals with a zero byte: the code cuts them when it copies the text.
- IdAllocation.Serve: does not model wrap-around of the 64-bit counters, since a counter in decimal notation fails to be read before it wraps.
- Histogram.BuildHistogram: asks for a total below 2^31, because the code sums the counts in a signed 32-bit integer.
- RowCodec.IndexLeadsToRow: a single key column; keys of several columns are in `IndexLeadsToRowIff`.
