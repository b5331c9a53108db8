/** Tables whose description is loaded anew between statements. The stored description keeps the
    largest node id of when the table was created, so new leaves get old ids. */
module Reloads {
  import opened DataOrder
  import opened OrderedMap
  import opened Codec
  import opened LeafCodec
  import opened Forest
  import opened TreeStates
  import opened TreeOps
  import opened Statements
  import opened UnsavedUpdates
  import opened UnsavedRows
  import opened UnsavedKeys
  import opened NodeIds
  import opened RowCodec
  import opened TableSpec
  import opened Tables
  import opened InsertRuns

  // ---- one row -------------------------------------------------------------------

  /** Inserting one row into a table, whatever largest node id its description has, leaves the
      table with that row exactly when the leaf that is split off, if any, gets the id of no leaf. */
  lemma OneRowRightIff(t: TableInfo, s: TableState, m: map<int, Row>, row: Row)
    requires InfoOk(t) && RowsOk(t, [row]) && AtRest(t, s.tree) && Intact(s.tree) && Refines(t, Model(s.tree), s.records, m)
    ensures var stmt := InsertRows([row]); var s' := AfterStatement(t, s, stmt);
            Refines(t, Model(s'.tree), s'.records, AfterTable(t, m, stmt)) <==> StatementReady(t, s, stmt)
  {
    hide AtRest, Intact, Model, IndexMap, Stored, RowOk, AfterRows, RowsReady, IndexKey, AllFit, Closed, Added;
    if StatementReady(t, s, InsertRows([row])) {
      StatementMeaning(t, s, m, InsertRows([row]));
    } else {
      UnreadyRowLost(t, s, m, row);
    }
  }

  lemma UnreadyRowLost(t: TableInfo, s: TableState, m: map<int, Row>, row: Row)
    requires RowsOk(t, [row]) && AtRest(t, s.tree) && Intact(s.tree) && Refines(t, Model(s.tree), s.records, m)
    requires !StatementReady(t, s, InsertRows([row]))
    ensures var s' := AfterStatement(t, s, InsertRows([row]));
            !Refines(t, Model(s'.tree), s'.records, AfterTable(t, m, InsertRows([row])))
  {
    hide Intact, WellFormed, RootSynced, Model, IndexMap, Stored, RowOk, AfterRows, RowsReady, AfterInsert, IndexKey, AllFit,
         Closed, Added, Fresh;
    var st, v := s.tree, Primary(t, [row][0]);
    var e := Entry(IndexKey(t.ty, v), []);
    assert EntriesOf(t, [row]) == [e];
    IndexKeySize(t.ty, v);
    UnreadyRow(st, e);
    IndexMapHas(t.ty, m.Keys, v);
    IndexMapAdd(t.ty, m.Keys, v);
    AddedKeys(t, m, [row]);
    OnePrimary(t, row);
  }

  lemma OnePrimary(t: TableInfo, row: Row)
    requires RowsOk(t, [row])
    ensures Primaries(t, [row]) == {Primary(t, [row][0])}
  {
    hide RowOk, Primary;
    assert Primary(t, [row][0]) in Primaries(t, [row]);
  }

  lemma UnreadyRow(st: TreeState, e: Entry)
    requires Intact(st) && st.unsaved == {} && !RowsReady(st, [e]) && |e.key| <= st.keyLimit && |e.value| < UINT32_RANGE
    ensures e.key !in Model(st) && AfterRows(st, [e]) == (AfterInsert(st, e), Ok)
    ensures Model(Closed(AfterInsert(st, e))) != Model(st)[e.key := e.value]
  {
    hide Intact, Fresh, WellFormed, Model, InsertStatus, AfterInsert, TakesFreeId, InsertReady, Settled;
    NothingUnsaved(st);
    SettledIsReady(st, e.key);
    InsertStatusIs(st, e);
    OneRowOf(st, e);
    IntactParts(st);
    InsertedWf(st, e);
    RootBelow(AfterInsert(st, e));
    SameRootId(st, e);
    InsertStoredIff(st, e, AfterInsert(st, e).maxId);
  }

  lemma OneRowOf(st: TreeState, e: Entry)
    ensures RowsReady(st, [e]) <==> RowReady(st, e)
    ensures AfterRows(st, [e])
            == if InsertStatus(st, e) == Ok then (AfterInsert(st, e), Ok) else (Inserted(st, e), InsertStatus(st, e))
  {
    hide RowReady, InsertStatus, AfterInsert, Located;
    assert [e][1..] == [];
    assert RowsReady(AfterInsert(st, e), []) && AfterRows(AfterInsert(st, e), []) == (AfterInsert(st, e), Ok);
  }

  // ---- runs of one-row statements ---------------------------------------------------

  /** After the first `n` statements storage refines the map of rows. */
  ghost predicate RightAt(t: TableInfo, stmts: seq<Statement>, n: nat)
    requires n <= |stmts| && forall i :: 0 <= i < |stmts| ==> StatementOk(t, stmts[i])
  {
    var s := StateAfter(t, stmts[..n]);
    Refines(t, Model(s.tree), s.records, TableAfter(t, stmts[..n]))
  }

  ghost predicate ReadyAt(t: TableInfo, stmts: seq<Statement>, n: nat)
    requires n < |stmts| && forall i :: 0 <= i < |stmts| ==> StatementOk(t, stmts[i])
  {
    StatementReady(t, StateAfter(t, stmts[..n]), stmts[n])
  }

  /** A run of statements of at most one row, with the description loaded anew at any point, is
      right all along exactly when no insertion splits off a leaf under the id of another one. */
  lemma {:induction false} OneRowRunRightIff(t: TableInfo, stmts: seq<Statement>, k: nat)
    requires InfoOk(t) && k <= |stmts| && forall i :: 0 <= i < |stmts| ==> StatementOk(t, stmts[i]) && OneRow(stmts[i])
    ensures (forall n :: 0 <= n <= k ==> RightAt(t, stmts, n)) <==> (forall n :: 0 <= n < k ==> ReadyAt(t, stmts, n))
    ensures (forall n :: 0 <= n < k ==> ReadyAt(t, stmts, n)) ==>
              AtRest(t, StateAfter(t, stmts[..k]).tree) && Intact(StateAfter(t, stmts[..k]).tree)
    decreases k
  {
    hide RightAt, ReadyAt, StatementOk, AtRest, Intact, OneRow, StateAfter;
    if k == 0 {
      RightAtStart(t, stmts);
    } else {
      OneRowRunRightIff(t, stmts, k - 1);
      if forall n :: 0 <= n < k - 1 ==> ReadyAt(t, stmts, n) { RightStep(t, stmts, k - 1); }
    }
  }

  lemma RightAtStart(t: TableInfo, stmts: seq<Statement>)
    requires forall i :: 0 <= i < |stmts| ==> StatementOk(t, stmts[i])
    ensures RightAt(t, stmts, 0) && AtRest(t, StateAfter(t, stmts[..0]).tree) && Intact(StateAfter(t, stmts[..0]).tree)
  {
    hide AtRest, Model, Refines;
    EmptyTableAtRest(t);
  }

  lemma RightStep(t: TableInfo, stmts: seq<Statement>, n: nat)
    requires InfoOk(t) && n < |stmts| && (forall i :: 0 <= i < |stmts| ==> StatementOk(t, stmts[i])) && OneRow(stmts[n])
    requires AtRest(t, StateAfter(t, stmts[..n]).tree) && Intact(StateAfter(t, stmts[..n]).tree) && RightAt(t, stmts, n)
    ensures RightAt(t, stmts, n + 1) <==> ReadyAt(t, stmts, n)
    ensures ReadyAt(t, stmts, n) ==>
              AtRest(t, StateAfter(t, stmts[..n + 1]).tree) && Intact(StateAfter(t, stmts[..n + 1]).tree)
  {
    hide AtRest, Intact, Model, Refines, StatementReady, AfterStatement, AfterTable, RowOk;
    var s, m, stmt := StateAfter(t, stmts[..n]), TableAfter(t, stmts[..n]), stmts[n];
    assert stmts[..n + 1][..n] == stmts[..n] && stmts[..n + 1][n] == stmt;
    if StatementReady(t, s, stmt) {
      StatementMeaning(t, s, m, stmt);
    } else {
      OneRowReady(t, s, stmt);
      assert stmt.rows == [stmt.rows[0]];
      OneRowRightIff(t, s, m, stmt.rows[0]);
    }
  }

  // ---- a deleted row that comes back -----------------------------------------------

  lemma FirstStored(st: TreeState, e: Entry)
    requires Intact(st) && st.unsaved == {} && st.leaves == [] && |e.key| <= st.keyLimit && |e.value| < UINT32_RANGE
    ensures var st' := Closed(AfterInsert(st, e));
            && Intact(st') && st'.unsaved == {} && e.key in Model(st') && |st'.leaves| == 1 && st'.leaves[0].entries == [e]
            && StoredEntries(st'.nodes, st.maxId + 1) == [e] && st.rootId != st.maxId + 1
            && st'.rootId == st.rootId && st'.keyLimit == st.keyLimit
  {
    hide Intact, Model, AfterInsert, AfterSave, StoredEntries, Fresh;
    var st' := AfterInsert(st, e);
    FirstInsert(st, e);
    SameRootId(st, e);
    IntactParts(st');
    ListedIff(st', 0);
    StoredOfListed(st', 0);
    ClosedKeeps(st');
    ClosedFields(st');
    SameLimit(st, e);
  }

  lemma ClosedFields(st: TreeState)
    ensures var st' := Closed(st);
            st'.rootId == st.rootId && st'.keyLimit == st.keyLimit && st'.maxId == st.maxId && st'.unsaved == {}
  {
    hide SavedOf;
  }

  /** Unlinking a leaf leaves its record in storage. */
  lemma EmptiedTree(st: TreeState, e: Entry)
    requires Intact(st) && st.unsaved == {} && |st.leaves| == 1 && st.leaves[0].entries == [e] && e.key in Model(st)
    ensures var st' := Closed(AfterDelete(st, e.key));
            && Intact(st') && st'.unsaved == {} && st'.leaves == [] && DeleteStatus(st, e.key) == Ok
            && st'.rootId == st.rootId && st'.keyLimit == st.keyLimit
            && forall id :: id != st.rootId ==> StoredEntries(st'.nodes, id) == StoredEntries(st.nodes, id)
  {
    hide Intact, Model, AfterDelete, AfterSave, ToMap, Find, LookupReady, LookupSaved, StoredEntries, Fresh;
    var st' := AfterDelete(st, e.key);
    NothingUnsaved(st);
    SettledIsReady(st, e.key);
    SavedLeaves(st);
    DeleteShape(st, e.key);
    assert st.leaves[..0] + st.leaves[1..] == [];
    DeleteMeaning(st, e.key);
    ClosedKeeps(st');
    ClosedFields(st');
    DeleteKeepsIds(st, e.key);
    forall id | id != st.rootId ensures StoredEntries(AfterSave(st').nodes, id) == StoredEntries(st.nodes, id) {
      StoredOfOther(st', id);
    }
  }

  /** Two rows into a tree without leaves whose storage has an old row for the id of the new leaf:
      the old row is back. */
  lemma OldRowBack(st: TreeState, was: Entry, a: Entry, b: Entry, w: nat)
    requires Intact(st) && st.unsaved == {} && st.leaves == [] && StoredEntries(st.nodes, st.maxId + 1) == [was]
    requires IndexRow(a, w) && IndexRow(b, w) && 2 * w + 20 <= MAX_NODE_SIZE && w <= st.keyLimit && 2 * st.keyLimit <= MAX_NODE_SIZE
    requires was.key != b.key && a.key != b.key
    ensures var (st', s) := AfterRows(st, [a, b]); s == Ok && was.key in Model(Closed(st'))
  {
    hide Intact, Model, AfterInsert, AfterSave, InsertStatus, StoredEntries, Fresh, Inserted, TakesFreeId, InsertReady;
    var st1 := AfterInsert(st, a);
    var st2 := AfterInsert(st1, b);
    IntactParts(st);
    FirstInsert(st, a);
    FirstIsEven(st, a, w);
    SmallRowsFit(st, [a, b]);
    FirstRowDefined(st, a, b);
    InsertStatusIs(st, a);
    BothRows(st, a, b);
    SecondOfOne(st1, was, a, b, w);
    InsertedIs(st1, b);
    IntactParts(st1);
    SameLimit(st, a);
    InsertedWf(st1, b);
    ListedIff(st2, 0);
    StoredOfListed(st2, 0);
    OneLeafModel(st2);
  }

  lemma FirstIsEven(st: TreeState, e: Entry, w: nat)
    requires st.leaves == [] && IndexRow(e, w) && 2 * w + 20 <= MAX_NODE_SIZE
    ensures |AfterInsert(st, e).leaves| == 1 && Even(AfterInsert(st, e).leaves[0].stat, w)
  {
    hide RangeStat, AddStat;
    EmplaceIntoEmpty(e);
    AddStatEven(EMPTY_STAT, 1, e, w);
  }

  lemma SecondOfOne(st: TreeState, was: Entry, a: Entry, b: Entry, w: nat)
    requires |st.leaves| == 1 && st.leaves[0].kvs == [a] && StoredEntries(st.nodes, st.leaves[0].id) == [was]
    requires Even(st.leaves[0].stat, w) && IndexRow(b, w) && 2 * w + 20 <= MAX_NODE_SIZE
    requires was.key != b.key && a.key != b.key
    ensures var st' := AfterInsert(st, b);
            && InsertStatus(st, b) != DuplicateKey && |st'.leaves| == 1
            && st'.leaves[0].id == st.leaves[0].id && st'.leaves[0].id in st'.unsaved && was.key in Keys(st'.leaves[0].kvs)
  {
    hide EmplaceAll, Emplace, Has, ToMap, DataCmp, AddStat, RangeStat, RootDue;
    var kvs := EmplaceAll([a], [was]);
    assert Located(st, b.key).leaves[0].kvs == kvs;
    MergeKeys([a], [was]);
    ToMapSingle(a);
    ToMapSingle(was);
    HasIffKey(kvs, b.key);
    EmplaceSpec(kvs, b);
    NotEmpty(kvs, a.key);
    GrowsTo(kvs, b);
    AddStatEven(st.leaves[0].stat, |Emplace(kvs, b)|, b, w);
  }

  lemma NotEmpty(s: seq<Entry>, key: Bytes)
    requires key in Keys(s)
    ensures s != []
  {
  }

  lemma GrowsTo(s: seq<Entry>, e: Entry)
    requires s != [] && !Has(s, e.key)
    ensures |Emplace(s, e)| > 1
  {
  }

  lemma OneLeafModel(st: TreeState)
    requires |st.leaves| == 1
    ensures Keys(StoredEntries(AfterSave(st).nodes, st.leaves[0].id)) <= Model(Closed(st)).Keys
  {
    hide AfterSave, ToMap, StoredEntries;
    LeafWithinModel(Views(Closed(st).leaves), 0);
  }

  /** The trees of the run below. */
  lemma TreesOfRun(t: TableInfo, a: Entry, b: Entry, c: Entry, w: nat)
    requires IndexRow(a, w) && IndexRow(b, w) && IndexRow(c, w) && w <= 9
    requires a.key != b.key && a.key != c.key && b.key != c.key
    ensures var (st1, s1) := AfterRows(EmptyTable(t).tree, [a]); var (st2, s2) := AfterKeys(Closed(st1), [a.key]);
            var (st3, s3) := AfterRows(ReopenStep(Closed(st2), t.rootId), [b, c]);
            s1 == s2 == s3 == Ok && a.key in Model(Closed(st3))
  {
    hide Intact, Model, AfterInsert, AfterDelete, Closed, InsertStatus, Fresh, InsertReady, TakesFreeId, StoredEntries, Refines;
    var st := EmptyTable(t).tree;
    EmptyTableAtRest(t);
    FirstInsert(st, a);
    InsertStatusIs(st, a);
    SmallRowsFit(st, [a]) by { IntactParts(st); }
    OneRowOf(st, a);
    FirstStored(st, a);
    var st1 := Closed(AfterInsert(st, a));
    EmptiedTree(st1, a);
    OneKeyOf(st1, a.key);
    var st2 := Closed(AfterDelete(st1, a.key));
    ReopenKeeps(st2, t.rootId);
    OldRowBack(ReopenStep(st2, t.rootId), a, b, c, w);
  }

  lemma OneKeyOf(st: TreeState, key: Bytes)
    requires DeleteStatus(st, key) == Ok
    ensures AfterKeys(st, [key]) == (AfterDelete(st, key), Ok)
  {
    hide AfterDelete, DeleteStatus;
    assert [key][1..] == [] && AfterKeys(AfterDelete(st, key), []) == (AfterDelete(st, key), Ok);
  }

  /** A table that has never held but one row loses it and gets two others. With the description
      loaded anew in between, the index lists the first row again, whose record is gone. */
  lemma DeletedRowIsListed(t: TableInfo, a: Row, b: Row, c: Row)
    requires InfoOk(t) && RowsOk(t, [a]) && RowsOk(t, [b, c])
    requires var x, y, z := Primary(t, [a][0]), Primary(t, [b, c][0]), Primary(t, [b, c][1]); x != y && x != z && y != z
    ensures var stmts := [InsertRows([a]), DeleteRows([a]), ReloadInfo, InsertRows([b, c])];
            && (forall i :: 0 <= i < |stmts| ==> StatementOk(t, stmts[i]))
            && var s, x := StateAfter(t, stmts), Primary(t, [a][0]);
               IndexKey(t.ty, x) in Model(s.tree) && Slot(t, x) !in s.records && x !in TableAfter(t, stmts)
  {
    hide RowOk, Model, AfterRows, AfterKeys, Closed, IndexKey, Slot, EncodeCells, Primary, AfterStatement, AfterTable,
         StatementOk, StateAfter, TableAfter;
    var s1, s2 := [InsertRows([a])], [InsertRows([a])] + [DeleteRows([a])];
    var s3 := s2 + [ReloadInfo];
    RowsAreOk(t, [a]);
    RowsAreOk(t, [b, c]);
    StateOfOne(t, InsertRows([a]));
    StateSnoc(t, s1, DeleteRows([a]));
    StateSnoc(t, s2, ReloadInfo);
    StateSnoc(t, s3, InsertRows([b, c]));
    assert s3 + [InsertRows([b, c])] == [InsertRows([a]), DeleteRows([a]), ReloadInfo, InsertRows([b, c])];
    TreeOfRun(t, a, b, c);
    RecordsOfRun(t, a, b, c);
    TableOfRun(t, a, b, c);
  }

  lemma RowsAreOk(t: TableInfo, rows: seq<Row>)
    requires RowsOk(t, rows)
    ensures StatementOk(t, InsertRows(rows)) && StatementOk(t, DeleteRows(rows)) && StatementOk(t, ReloadInfo)
  {
  }

  lemma StateSnoc(t: TableInfo, stmts: seq<Statement>, stmt: Statement)
    requires (forall i :: 0 <= i < |stmts| ==> StatementOk(t, stmts[i])) && StatementOk(t, stmt)
    ensures forall i :: 0 <= i < |stmts + [stmt]| ==> StatementOk(t, (stmts + [stmt])[i])
    ensures StateAfter(t, stmts + [stmt]) == AfterStatement(t, StateAfter(t, stmts), stmt)
    ensures TableAfter(t, stmts + [stmt]) == AfterTable(t, TableAfter(t, stmts), stmt)
  {
    hide StatementOk, AfterStatement, AfterTable;
    assert (stmts + [stmt])[..|stmts|] == stmts;
  }

  lemma StateOfOne(t: TableInfo, stmt: Statement)
    requires StatementOk(t, stmt)
    ensures StateAfter(t, [stmt]) == AfterStatement(t, EmptyTable(t), stmt)
    ensures TableAfter(t, [stmt]) == AfterTable(t, map[], stmt)
  {
    hide StatementOk, AfterStatement, AfterTable;
    var none: seq<Statement> := [];
    assert [stmt][..0] == none;
  }

  lemma TreeOfRun(t: TableInfo, a: Row, b: Row, c: Row)
    requires InfoOk(t) && RowsOk(t, [a]) && RowsOk(t, [b, c])
    requires var x, y, z := Primary(t, [a][0]), Primary(t, [b, c][0]), Primary(t, [b, c][1]); x != y && x != z && y != z
    ensures var t1 := AfterStatement(t, EmptyTable(t), InsertRows([a])); var t2 := AfterStatement(t, t1, DeleteRows([a]));
            var t3 := AfterStatement(t, t2, ReloadInfo);
            && AfterKeys(t1.tree, KeysOf(t, [a])).1 == Ok
            && IndexKey(t.ty, Primary(t, [a][0])) in Model(AfterStatement(t, t3, InsertRows([b, c])).tree)
  {
    hide RowOk, Model, AfterRows, AfterKeys, Closed, IndexKey, Primary, Written, Removed, ReopenStep;
    var x, y, z := Primary(t, [a][0]), Primary(t, [b, c][0]), Primary(t, [b, c][1]);
    var ea, eb, ec := Entry(IndexKey(t.ty, x), []), Entry(IndexKey(t.ty, y), []), Entry(IndexKey(t.ty, z), []);
    assert EntriesOf(t, [a]) == [ea] && KeysOf(t, [a]) == [ea.key] && EntriesOf(t, [b, c]) == [eb, ec];
    IndexKeyIs(t.ty, x);
    IndexKeyIs(t.ty, y);
    IndexKeyIs(t.ty, z);
    IndexKeysDiffer(t.ty, x, y);
    IndexKeysDiffer(t.ty, x, z);
    IndexKeysDiffer(t.ty, y, z);
    TreesOfRun(t, ea, eb, ec, KeySize(t.ty));
  }

  lemma RecordsOfRun(t: TableInfo, a: Row, b: Row, c: Row)
    requires InfoOk(t) && RowsOk(t, [a]) && RowsOk(t, [b, c])
    requires var x, y, z := Primary(t, [a][0]), Primary(t, [b, c][0]), Primary(t, [b, c][1]); x != y && x != z && y != z
    requires AfterKeys(AfterStatement(t, EmptyTable(t), InsertRows([a])).tree, KeysOf(t, [a])).1 == Ok
    ensures var t1 := AfterStatement(t, EmptyTable(t), InsertRows([a])); var t2 := AfterStatement(t, t1, DeleteRows([a]));
            var t3 := AfterStatement(t, t2, ReloadInfo);
            Slot(t, Primary(t, [a][0])) !in AfterStatement(t, t3, InsertRows([b, c])).records
  {
    hide RowOk, AfterRows, AfterKeys, Closed, Primary, Slot, Written, Removed;
    RecordGone(t, Written(t, map[], [a]), a, b, c);
  }

  lemma RecordGone(t: TableInfo, records: map<Bytes, Bytes>, a: Row, b: Row, c: Row)
    requires InfoOk(t) && RowsOk(t, [a]) && RowsOk(t, [b, c])
    requires var x, y, z := Primary(t, [a][0]), Primary(t, [b, c][0]), Primary(t, [b, c][1]); x != y && x != z && y != z
    ensures Slot(t, Primary(t, [a][0])) !in Written(t, Removed(t, records, [a]), [b, c])
  {
    hide RowOk, Primary, Slot, EncodeCells;
    var none: seq<Row> := [];
    assert [a][..0] == none && [b, c][..1] == [b] && [b][..0] == none;
    SlotsDiffer(t, Primary(t, [a][0]), Primary(t, [b, c][0]));
    SlotsDiffer(t, Primary(t, [a][0]), Primary(t, [b, c][1]));
    var left := Removed(t, records, [a]);
    assert left == Removed(t, records, none) - {Slot(t, Primary(t, [a][0]))};
    assert [b][0] == [b, c][0];
    assert Written(t, left, [b]).Keys == Written(t, left, none).Keys + {Slot(t, Primary(t, [b, c][0]))};
  }

  lemma TableOfRun(t: TableInfo, a: Row, b: Row, c: Row)
    requires RowsOk(t, [a]) && RowsOk(t, [b, c])
    requires var x, y, z := Primary(t, [a][0]), Primary(t, [b, c][0]), Primary(t, [b, c][1]); x != y && x != z && y != z
    ensures var m1 := AfterTable(t, map[], InsertRows([a])); var m2 := AfterTable(t, m1, DeleteRows([a]));
            var m3 := AfterTable(t, m2, ReloadInfo);
            Primary(t, [a][0]) !in AfterTable(t, m3, InsertRows([b, c]))
  {
    hide RowOk, Primary, Accepted, LastOr;
    assert Primary(t, [a][0]) in Primaries(t, [a]);
  }
}
