/** A table with one integer primary key as a value: the tree of its primary index, the row
    records beside it, and the map of rows the two stand for. */
module TableSpec {
  import opened DataOrder
  import opened OrderedMap
  import opened Codec
  import opened TreeStates
  import opened TreeOps
  import opened Statements
  import opened RowCodec
  import KeySpace

  type Row = seq<Cell>

  /** `columns` columns, the primary key in column `primary`, brought as values of type `ty`; the
      new description of the table gives it the type `planned`. */
  datatype TableInfo =
    TableInfo(db: nat, table: nat, rootId: nat, columns: nat, primary: nat, ty: IntType, planned: IntType)

  ghost predicate InfoOk(t: TableInfo) { 1 <= t.db < UINT64_RANGE && t.table < UINT64_RANGE && t.primary < t.columns }

  ghost predicate RowOk(t: TableInfo, row: Row) {
    && |row| == t.columns && t.primary < |row| && AllProper(row)
    && row[t.primary].Int? && row[t.primary].ty == t.ty
  }

  ghost predicate RowsOk(t: TableInfo, rows: seq<Row>) { forall i :: 0 <= i < |rows| ==> RowOk(t, rows[i]) }

  function Primary(t: TableInfo, row: Row): (v: int)
    requires RowOk(t, row)
    ensures Fits(t.ty, v)
  {
    assert Proper(row[t.primary]);
    row[t.primary].v
  }

  /** The key of a row in the index, and the key of its record. */
  function IndexKey(ty: IntType, v: int): Bytes
    requires Fits(ty, v)
  {
    EncodeCell(Int(ty, v))
  }

  function Slot(t: TableInfo, v: int): Bytes { DataKey(t.db, t.table, Int(t.ty, v)) }

  lemma IndexKeysDiffer(ty: IntType, a: int, b: int)
    requires Fits(ty, a) && Fits(ty, b)
    ensures IndexKey(ty, a) == IndexKey(ty, b) <==> a == b
  {
    hide EncodeCell;
    IndexOrder(ty, a, b);
    BitsBack(ty, a);
    BitsBack(ty, b);
  }

  lemma IndexKeySize(ty: IntType, v: int)
    requires Fits(ty, v)
    ensures |IndexKey(ty, v)| <= 9
  {
    KeySpace.OneByte(Code(ty) as nat);
  }

  lemma SlotsDiffer(t: TableInfo, a: int, b: int)
    requires InfoOk(t) && Fits(t.ty, a) && Fits(t.ty, b)
    ensures Slot(t, a) == Slot(t, b) <==> a == b
  {
    RowsHaveOwnKeys(t.db, t.table, Int(t.ty, a), Int(t.ty, b));
  }

  /** Records and tree nodes never share a key, so the store may be seen as two. */
  lemma RecordsApartFromNodes(t: TableInfo, v: int, index: nat, node: nat)
    requires InfoOk(t) && Fits(t.ty, v) && index < UINT64_RANGE && node < UINT64_RANGE
    ensures Slot(t, v) != KeySpace.KeyOf(KeySpace.TreeNode(t.db, t.table, index, node))
  {
    hide KeySpace.KeyOf, ToText;
    var c := Int(t.ty, v);
    TextShort(c);
    KeySpace.KeysDistinct(KeySpace.Row(t.db, t.table, ToText(c)), KeySpace.TreeNode(t.db, t.table, index, node));
  }

  // ---- the index of a set of rows --------------------------------------------

  ghost predicate AllFit(ty: IntType, ks: set<int>) { forall v :: v in ks ==> Fits(ty, v) }

  ghost function IndexMap(ty: IntType, ks: set<int>): (m: map<Bytes, Bytes>)
    requires AllFit(ty, ks)
    ensures forall v :: v in ks ==> IndexKey(ty, v) in m
    ensures forall key :: key in m ==> m[key] == [] && exists v :: v in ks && key == IndexKey(ty, v)
  {
    var keys := set v | v in ks :: IndexKey(ty, v);
    map key | key in keys :: []
  }

  lemma IndexMapHas(ty: IntType, ks: set<int>, v: int)
    requires AllFit(ty, ks) && Fits(ty, v)
    ensures IndexKey(ty, v) in IndexMap(ty, ks) <==> v in ks
  {
    hide IndexKey, IndexMap;
    if IndexKey(ty, v) in IndexMap(ty, ks) {
      var w :| w in ks && IndexKey(ty, v) == IndexKey(ty, w);
      IndexKeysDiffer(ty, v, w);
    }
  }

  lemma IndexMapAdd(ty: IntType, ks: set<int>, v: int)
    requires AllFit(ty, ks) && Fits(ty, v)
    ensures AllFit(ty, ks + {v}) && IndexMap(ty, ks + {v}) == IndexMap(ty, ks)[IndexKey(ty, v) := []]
  {
    hide IndexKey, IndexMap;
    var a, b := IndexMap(ty, ks + {v}), IndexMap(ty, ks)[IndexKey(ty, v) := []];
    forall key ensures key in a <==> key in b {
      if key in a { var w :| w in ks + {v} && key == IndexKey(ty, w); }
      if key in b && key != IndexKey(ty, v) { var w :| w in ks && key == IndexKey(ty, w); }
    }
  }

  lemma IndexMapRemove(ty: IntType, ks: set<int>, v: int)
    requires AllFit(ty, ks) && Fits(ty, v)
    ensures AllFit(ty, ks - {v}) && IndexMap(ty, ks - {v}) == IndexMap(ty, ks) - {IndexKey(ty, v)}
  {
    hide IndexKey, IndexMap;
    var a, b := IndexMap(ty, ks - {v}), IndexMap(ty, ks) - {IndexKey(ty, v)};
    forall key ensures key in a <==> key in b {
      if key in a {
        var w :| w in ks - {v} && key == IndexKey(ty, w);
        IndexKeysDiffer(ty, v, w);
      }
      if key in b { var w :| w in ks && key == IndexKey(ty, w); }
    }
  }

  // ---- what a statement brings ------------------------------------------------

  ghost function EntriesOf(t: TableInfo, rows: seq<Row>): (es: seq<Entry>)
    requires RowsOk(t, rows)
    ensures |es| == |rows|
  {
    seq(|rows|, i requires 0 <= i < |rows| => Entry(IndexKey(t.ty, Primary(t, rows[i])), []))
  }

  ghost function KeysOf(t: TableInfo, rows: seq<Row>): (ks: seq<Bytes>)
    requires RowsOk(t, rows)
    ensures |ks| == |rows|
  {
    seq(|rows|, i requires 0 <= i < |rows| => IndexKey(t.ty, Primary(t, rows[i])))
  }

  ghost function Primaries(t: TableInfo, rows: seq<Row>): set<int>
    requires RowsOk(t, rows)
  {
    set i | 0 <= i < |rows| :: Primary(t, rows[i])
  }

  /** The last row of the statement with the primary key `v`, if any. */
  ghost function LastOr(t: TableInfo, rows: seq<Row>, v: int, before: Row): Row
    requires RowsOk(t, rows)
  {
    if rows == [] then before
    else if Primary(t, rows[|rows| - 1]) == v then rows[|rows| - 1]
    else LastOr(t, rows[..|rows| - 1], v, before)
  }

  /** All keys are new, and different. */
  ghost predicate Accepted(t: TableInfo, ks: set<int>, rows: seq<Row>)
    requires RowsOk(t, rows)
  {
    && (forall i :: 0 <= i < |rows| ==> Primary(t, rows[i]) !in ks)
    && (forall i, j :: 0 <= i < j < |rows| ==> Primary(t, rows[i]) != Primary(t, rows[j]))
  }

  // ---- rows -----------------------------------------------------------------

  ghost function Added(t: TableInfo, m: map<int, Row>, rows: seq<Row>): map<int, Row>
    requires RowsOk(t, rows)
  {
    map v | v in m.Keys + Primaries(t, rows) :: LastOr(t, rows, v, if v in m then m[v] else [])
  }

  ghost function Overwritten(t: TableInfo, m: map<int, Row>, rows: seq<Row>): map<int, Row>
    requires RowsOk(t, rows)
  {
    map v | v in m :: LastOr(t, rows, v, m[v])
  }

  /** What inserting rows does to a map of rows. */
  ghost function MapInsert(t: TableInfo, m: map<int, Row>, rows: seq<Row>): map<int, Row>
    requires RowsOk(t, rows)
  {
    if Accepted(t, m.Keys, rows) then Added(t, m, rows) else m
  }

  /** What it does to a table: the records are written before the index refuses a row. */
  ghost function TableInsert(t: TableInfo, m: map<int, Row>, rows: seq<Row>): map<int, Row>
    requires RowsOk(t, rows)
  {
    if Accepted(t, m.Keys, rows) then Added(t, m, rows) else Overwritten(t, m, rows)
  }

  /** A table does with a statement what a map of rows does exactly when the statement goes
      through, or brings for no stored row another one with its key. */
  lemma TableInsertIff(t: TableInfo, m: map<int, Row>, rows: seq<Row>)
    requires RowsOk(t, rows)
    ensures TableInsert(t, m, rows) == MapInsert(t, m, rows) <==>
              || Accepted(t, m.Keys, rows)
              || forall v :: v in m ==> LastOr(t, rows, v, m[v]) == m[v]
  {
    if forall v :: v in m ==> LastOr(t, rows, v, m[v]) == m[v] {
      assert Overwritten(t, m, rows) == m;
    } else {
      var v :| v in m && LastOr(t, rows, v, m[v]) != m[v];
      assert Overwritten(t, m, rows)[v] != m[v];
    }
  }

  /** Row 1 is in the table; inserting another row 1 is refused, and still replaces it. */
  lemma RefusedRowOverwrites()
    ensures var t := TableInfo(1, 1, 1, 2, 0, UInt32, UInt32);
            var row, other: Row := [Int(UInt32, 1), Int(UInt32, 10)], [Int(UInt32, 1), Int(UInt32, 20)];
            && RowsOk(t, [row]) && RowsOk(t, [other]) && !Accepted(t, {1}, [other])
            && MapInsert(t, map[1 := row], [other]) == map[1 := row]
            && TableInsert(t, map[1 := row], [other]) == map[1 := other]
  {
    var t := TableInfo(1, 1, 1, 2, 0, UInt32, UInt32);
    var row, other: Row := [Int(UInt32, 1), Int(UInt32, 10)], [Int(UInt32, 1), Int(UInt32, 20)];
    assert Primary(t, [other][0]) == 1;
    assert LastOr(t, [other], 1, row) == other;
  }

  // ---- index and records of a map of rows -------------------------------------

  ghost predicate Stored(t: TableInfo, records: map<Bytes, Bytes>, m: map<int, Row>) {
    forall v :: v in m ==>
      && RowOk(t, m[v]) && Primary(t, m[v]) == v
      && Slot(t, v) in records && records[Slot(t, v)] == EncodeCells(m[v])
  }

  /** The table stands for this map of rows. */
  ghost predicate Refines(t: TableInfo, content: map<Bytes, Bytes>, records: map<Bytes, Bytes>, m: map<int, Row>) {
    AllFit(t.ty, m.Keys) && content == IndexMap(t.ty, m.Keys) && Stored(t, records, m)
  }

  /** One batch of writes: later rows win. */
  ghost function Written(t: TableInfo, records: map<Bytes, Bytes>, rows: seq<Row>): map<Bytes, Bytes>
    requires RowsOk(t, rows)
  {
    if rows == [] then records
    else Written(t, records, rows[..|rows| - 1])[Slot(t, Primary(t, rows[|rows| - 1])) := EncodeCells(rows[|rows| - 1])]
  }

  lemma WrittenSnoc(t: TableInfo, records: map<Bytes, Bytes>, rows: seq<Row>, n: nat)
    requires RowsOk(t, rows) && n < |rows|
    ensures AllProper(rows[n])
    ensures Written(t, records, rows[..n + 1])
            == Written(t, records, rows[..n])[Slot(t, Primary(t, rows[n])) := EncodeCells(rows[n])]
  {
    hide EncodeCells, AllProper, Slot, Primary;
    assert rows[..n + 1][..n] == rows[..n];
  }

  ghost function Removed(t: TableInfo, records: map<Bytes, Bytes>, rows: seq<Row>): map<Bytes, Bytes>
    requires RowsOk(t, rows)
  {
    if rows == [] then records
    else Removed(t, records, rows[..|rows| - 1]) - {Slot(t, Primary(t, rows[|rows| - 1]))}
  }

  lemma {:induction false} WrittenAt(t: TableInfo, records: map<Bytes, Bytes>, rows: seq<Row>, v: int, before: Row)
    requires InfoOk(t) && RowsOk(t, rows) && Fits(t.ty, v)
    requires v in Primaries(t, rows) ||
             (Slot(t, v) in records && RowOk(t, before) && records[Slot(t, v)] == EncodeCells(before))
    requires v !in Primaries(t, rows) ==> Primary(t, before) == v
    ensures var row := LastOr(t, rows, v, before);
            && RowOk(t, row) && Primary(t, row) == v
            && Slot(t, v) in Written(t, records, rows) && Written(t, records, rows)[Slot(t, v)] == EncodeCells(row)
  {
    hide EncodeCells, AllProper, Slot, Primary;
    if rows != [] {
      var front, last := rows[..|rows| - 1], rows[|rows| - 1];
      SlotsDiffer(t, v, Primary(t, last));
      if Primary(t, last) != v {
        PrimariesSnoc(t, rows);
        WrittenAt(t, records, front, v, before);
      }
    }
  }

  lemma PrimariesSnoc(t: TableInfo, rows: seq<Row>)
    requires RowsOk(t, rows) && rows != []
    ensures Primaries(t, rows) == Primaries(t, rows[..|rows| - 1]) + {Primary(t, rows[|rows| - 1])}
  {
    hide Primary, RowOk;
    var front := rows[..|rows| - 1];
    forall v ensures v in Primaries(t, rows) <==> v in Primaries(t, front) || v == Primary(t, rows[|rows| - 1]) {
      if v in Primaries(t, rows) {
        var i :| 0 <= i < |rows| && v == Primary(t, rows[i]);
        assert i < |front| ==> front[i] == rows[i];
      }
      if v in Primaries(t, front) {
        var i :| 0 <= i < |front| && v == Primary(t, front[i]);
        assert rows[i] == front[i];
      }
    }
  }

  /** Writing a batch of rows overwrites what is there and adds the rest. */
  lemma WriteKeeps(t: TableInfo, records: map<Bytes, Bytes>, m: map<int, Row>, rows: seq<Row>)
    requires InfoOk(t) && RowsOk(t, rows) && Stored(t, records, m) && AllFit(t.ty, m.Keys)
    ensures Stored(t, Written(t, records, rows), Overwritten(t, m, rows))
    ensures Stored(t, Written(t, records, rows), Added(t, m, rows))
    ensures AllFit(t.ty, Primaries(t, rows))
  {
    hide EncodeCells, AllProper, Slot, Written, Primary, LastOr;
    forall v | v in m.Keys + Primaries(t, rows)
      ensures var row := LastOr(t, rows, v, if v in m then m[v] else []);
              && RowOk(t, row) && Primary(t, row) == v
              && Slot(t, v) in Written(t, records, rows) && Written(t, records, rows)[Slot(t, v)] == EncodeCells(row)
    {
      WrittenAt(t, records, rows, v, if v in m then m[v] else []);
    }
  }

  lemma {:induction false} RemovedAt(t: TableInfo, records: map<Bytes, Bytes>, rows: seq<Row>, v: int)
    requires InfoOk(t) && RowsOk(t, rows) && Fits(t.ty, v) && v !in Primaries(t, rows) && Slot(t, v) in records
    ensures Slot(t, v) in Removed(t, records, rows) && Removed(t, records, rows)[Slot(t, v)] == records[Slot(t, v)]
  {
    hide Slot, Primary;
    if rows != [] {
      SlotsDiffer(t, v, Primary(t, rows[|rows| - 1]));
      PrimariesSnoc(t, rows);
      RemovedAt(t, records, rows[..|rows| - 1], v);
    }
  }

  lemma RemoveKeeps(t: TableInfo, records: map<Bytes, Bytes>, m: map<int, Row>, rows: seq<Row>)
    requires InfoOk(t) && RowsOk(t, rows) && Stored(t, records, m) && AllFit(t.ty, m.Keys)
    ensures Stored(t, Removed(t, records, rows), m - Primaries(t, rows))
  {
    hide Slot, Primary, Removed, EncodeCells, AllProper;
    forall v | v in m - Primaries(t, rows)
      ensures Slot(t, v) in Removed(t, records, rows) && Removed(t, records, rows)[Slot(t, v)] == records[Slot(t, v)]
    {
      RemovedAt(t, records, rows, v);
    }
  }

  // ---- statements over the index ----------------------------------------------

  lemma {:induction false} InsertedIndexRows(t: TableInfo, ks: set<int>, rows: seq<Row>)
    requires RowsOk(t, rows) && AllFit(t.ty, ks)
    ensures AllFit(t.ty, ks + Primaries(t, rows))
    ensures if Accepted(t, ks, rows)
            then InsertedRows(IndexMap(t.ty, ks), EntriesOf(t, rows)) == (IndexMap(t.ty, ks + Primaries(t, rows)), Ok)
            else InsertedRows(IndexMap(t.ty, ks), EntriesOf(t, rows)).1 == DuplicateKey
    decreases |rows|
  {
    hide RowOk, IndexMap, IndexKey, Accepted, Primaries, Primary;
    if rows == [] {
      NoPrimaries(t, rows);
      NothingRefused(t, ks, rows);
      assert ks + Primaries(t, rows) == ks;
    } else {
      var v, rest := Primary(t, rows[0]), rows[1..];
      IndexMapHas(t.ty, ks, v);
      IndexMapAdd(t.ty, ks, v);
      assert EntriesOf(t, rows)[1..] == EntriesOf(t, rest);
      AcceptedStep(t, ks, rows);
      PrimariesCons(t, rows);
      assert ks + {v} + Primaries(t, rest) == ks + Primaries(t, rows);
      InsertedIndexRows(t, ks + {v}, rest);
    }
  }

  lemma NoPrimaries(t: TableInfo, rows: seq<Row>)
    requires rows == []
    ensures Primaries(t, rows) == {}
  {
  }

  lemma NothingRefused(t: TableInfo, ks: set<int>, rows: seq<Row>)
    requires rows == []
    ensures Accepted(t, ks, rows)
  {
  }

  lemma AcceptedStep(t: TableInfo, ks: set<int>, rows: seq<Row>)
    requires RowsOk(t, rows) && rows != []
    ensures Accepted(t, ks, rows) <==>
              Primary(t, rows[0]) !in ks && Accepted(t, ks + {Primary(t, rows[0])}, rows[1..])
  {
    hide RowOk, Primary;
    var v, rest := Primary(t, rows[0]), rows[1..];
    assert forall i :: 0 <= i < |rest| ==> rest[i] == rows[i + 1];
    if v !in ks && Accepted(t, ks + {v}, rest) {
      forall i, j | 0 <= i < j < |rows| ensures Primary(t, rows[i]) != Primary(t, rows[j]) {
        assert rows[j] == rest[j - 1] && (i > 0 ==> rows[i] == rest[i - 1]);
      }
      forall i | 0 <= i < |rows| ensures Primary(t, rows[i]) !in ks {
        assert i > 0 ==> rows[i] == rest[i - 1];
      }
    }
  }

  lemma PrimariesCons(t: TableInfo, rows: seq<Row>)
    requires RowsOk(t, rows) && rows != []
    ensures Primaries(t, rows) == {Primary(t, rows[0])} + Primaries(t, rows[1..])
  {
    hide Primary, RowOk;
    var rest := rows[1..];
    forall v ensures v in Primaries(t, rows) <==> v in Primaries(t, rest) || v == Primary(t, rows[0]) {
      if v in Primaries(t, rows) {
        var i :| 0 <= i < |rows| && v == Primary(t, rows[i]);
        assert i > 0 ==> rest[i - 1] == rows[i];
      }
      if v in Primaries(t, rest) {
        var i :| 0 <= i < |rest| && v == Primary(t, rest[i]);
        assert rows[i + 1] == rest[i];
      }
    }
  }

  lemma {:induction false} DeletedIndexKeys(t: TableInfo, ks: set<int>, rows: seq<Row>)
    requires RowsOk(t, rows) && AllFit(t.ty, ks)
    ensures AllFit(t.ty, ks - Primaries(t, rows))
    ensures DeletedKeys(IndexMap(t.ty, ks), KeysOf(t, rows)) == IndexMap(t.ty, ks - Primaries(t, rows))
    decreases |rows|
  {
    hide RowOk, IndexMap, IndexKey, Primaries, Primary;
    if rows == [] {
      NoPrimaries(t, rows);
      assert ks - Primaries(t, rows) == ks;
    } else {
      var v, rest := Primary(t, rows[0]), rows[1..];
      IndexMapRemove(t.ty, ks, v);
      assert KeysOf(t, rows)[1..] == KeysOf(t, rest);
      PrimariesCons(t, rows);
      assert ks - {v} - Primaries(t, rest) == ks - Primaries(t, rows);
      DeletedIndexKeys(t, ks - {v}, rest);
    }
  }

  // ---- statements over a table -------------------------------------------------

  /** `ReloadInfo` loads the description of the table from storage again. */
  datatype Statement =
    | InsertRows(rows: seq<Row>)
    | DeleteRows(rows: seq<Row>)
    | SelectAll(pageSize: nat)
    | ReloadInfo

  /** What there is between two statements: the saved tree, the records, and the type for which a
      query plans its range. */
  datatype TableState = TableState(tree: TreeState, records: map<Bytes, Bytes>, planned: IntType)

  ghost predicate StatementOk(t: TableInfo, s: Statement) {
    match s
    case SelectAll(pageSize) => pageSize >= 1
    case ReloadInfo => true
    case _ => RowsOk(t, s.rows)
  }

  /** Every statement opens the index anew. */
  ghost function Closed(st: TreeState): TreeState { ReopenStep(AfterSave(st), st.maxId) }

  /** A refused insertion is not saved, but its records are written. The stored description still
      has the largest node id of when the table was created, which is that of the root, and no
      types of columns. */
  ghost function AfterStatement(t: TableInfo, s: TableState, stmt: Statement): TableState
    requires StatementOk(t, stmt)
  {
    match stmt
    case InsertRows(rows) =>
      var (tree, status) := AfterRows(s.tree, EntriesOf(t, rows));
      s.(tree := if status == Ok then Closed(tree) else s.tree, records := Written(t, s.records, rows))
    case DeleteRows(rows) =>
      var (tree, status) := AfterKeys(s.tree, KeysOf(t, rows));
      if status == Ok then s.(tree := Closed(tree), records := Removed(t, s.records, rows)) else s
    case SelectAll(_) => s
    case ReloadInfo => s.(tree := ReopenStep(s.tree, t.rootId), planned := Int64)
  }

  /** Every row of the statement finds its leaf settled, and the leaves it splits off get ids that
      no leaf has. */
  ghost predicate StatementReady(t: TableInfo, s: TableState, stmt: Statement)
    requires StatementOk(t, stmt)
  {
    match stmt
    case InsertRows(rows) => RowsReady(s.tree, EntriesOf(t, rows))
    case DeleteRows(rows) => KeysReady(s.tree, KeysOf(t, rows))
    case _ => true
  }

  ghost function AfterTable(t: TableInfo, m: map<int, Row>, stmt: Statement): map<int, Row>
    requires StatementOk(t, stmt)
  {
    match stmt
    case InsertRows(rows) => TableInsert(t, m, rows)
    case DeleteRows(rows) => m - Primaries(t, rows)
    case _ => m
  }

  /** A saved tree as it is opened. */
  ghost predicate AtRest(t: TableInfo, st: TreeState) {
    && WellFormed(st) && RootSynced(st) && st.unsaved == {} && st == ReopenStep(st, st.maxId)
    && st.rootId == t.rootId && st.keyLimit == MAX_KEY_SIZE
  }

  lemma RootBelow(st: TreeState)
    requires WellFormed(st)
    ensures st.rootId <= st.maxId
  {
  }

  lemma ClosedAtRest(t: TableInfo, st: TreeState)
    requires WellFormed(st) && RootSynced(st) && st.rootId == t.rootId && st.keyLimit == MAX_KEY_SIZE
    ensures AtRest(t, Closed(st))
  {
    hide WellFormed, RootSynced, SavedOf;
    SaveWf(st);
    SaveSyncs(st);
    RootBelow(st);
    ReopenWf(AfterSave(st), st.maxId);
  }

  lemma ClosedKeeps(st: TreeState)
    requires Intact(st)
    ensures Intact(Closed(st)) && Model(Closed(st)) == Model(st) && (Fresh(st) ==> Fresh(Closed(st)))
  {
    hide Fresh, LeavesInv, RootSynced, SavedOf, Model;
    SaveKeeps(st);
    IntactParts(st);
    ReopenKeeps(AfterSave(st), st.maxId);
  }

  /** Loading the description again keeps what is stored. */
  lemma ReloadKeeps(t: TableInfo, st: TreeState)
    requires AtRest(t, st)
    ensures AtRest(t, ReopenStep(st, t.rootId))
    ensures Intact(st) ==> Intact(ReopenStep(st, t.rootId)) && Model(ReopenStep(st, t.rootId)) == Model(st)
  {
    hide WellFormed, Intact, RootSynced, Model;
    ReopenWf(st, t.rootId);
    if Intact(st) { ReopenKeeps(st, t.rootId); }
    assert ReopenStep(ReopenStep(st, t.rootId), t.rootId) == ReopenStep(st, t.rootId);
  }

  lemma {:induction false} RowsSynced(st: TreeState, rows: seq<Entry>)
    requires RootSynced(st) && AfterRows(st, rows).1 == Ok
    ensures RootSynced(AfterRows(st, rows).0)
    decreases |rows|
  {
    hide Placed, MaybeSplit, InsertStatus, Inserted;
    if rows != [] { RowsSynced(AfterInsert(st, rows[0]), rows[1..]); }
  }

  lemma {:induction false} KeysSynced(st: TreeState, keys: seq<Bytes>)
    requires RootSynced(st)
    ensures RootSynced(AfterKeys(st, keys).0)
    decreases |keys|
  {
    hide AfterDelete, DeleteStatus, RootSynced;
    if keys != [] {
      DeleteSynced(st, keys[0]);
      if DeleteStatus(st, keys[0]) == Ok { KeysSynced(AfterDelete(st, keys[0]), keys[1..]); }
    }
  }

  lemma DeleteSynced(st: TreeState, key: Bytes)
    requires RootSynced(st)
    ensures RootSynced(AfterDelete(st, key))
  {
    hide Find, Reread, LookupSaved, Has, Erase, DelStat, RangeStat, FirstMax;
    assert RootRecord(AfterGet(st, key)) == RootRecord(st);
  }

  lemma {:induction false} KeysKeepWf(st: TreeState, keys: seq<Bytes>)
    requires WellFormed(st)
    ensures WellFormed(AfterKeys(st, keys).0)
    decreases |keys|
  {
    hide WellFormed, AfterDelete, DeleteStatus;
    if keys != [] {
      DeletedWf(st, keys[0]);
      if DeleteStatus(st, keys[0]) == Ok { KeysKeepWf(AfterDelete(st, keys[0]), keys[1..]); }
    }
  }

  lemma EntriesSized(t: TableInfo, st: TreeState, rows: seq<Row>)
    requires RowsOk(t, rows) && WellFormed(st) && st.keyLimit == MAX_KEY_SIZE
    ensures RowsSized(st, EntriesOf(t, rows)) && AfterRows(st, EntriesOf(t, rows)).1 != Undefined
  {
    hide WellFormed, RowOk, IndexKey, AfterRows;
    var es := EntriesOf(t, rows);
    forall i | 0 <= i < |es| ensures RowSized(st, es[i]) { IndexKeySize(t.ty, Primary(t, rows[i])); }
    SmallRowsFit(st, es);
  }

  lemma {:induction false} RowsKeepIds(st: TreeState, rows: seq<Entry>)
    ensures AfterRows(st, rows).0.rootId == st.rootId && AfterRows(st, rows).0.keyLimit == st.keyLimit
    decreases |rows|
  {
    hide AfterInsert, InsertStatus, Located;
    if rows != [] {
      InsertKeepsIds(st, rows[0]);
      if InsertStatus(st, rows[0]) == Ok { RowsKeepIds(AfterInsert(st, rows[0]), rows[1..]); }
    }
  }

  lemma InsertKeepsIds(st: TreeState, e: Entry)
    ensures AfterInsert(st, e).rootId == st.rootId && AfterInsert(st, e).keyLimit == st.keyLimit
    ensures Located(st, e.key).rootId == st.rootId && Located(st, e.key).keyLimit == st.keyLimit
  {
    hide Route, Reread, WithEntry, LeftHalf, RightHalf, RangeStat, FirstAbove, SplitDue;
  }

  lemma {:induction false} KeysKeepIds(st: TreeState, keys: seq<Bytes>)
    ensures AfterKeys(st, keys).0.rootId == st.rootId && AfterKeys(st, keys).0.keyLimit == st.keyLimit
    decreases |keys|
  {
    hide AfterDelete, DeleteStatus;
    if keys != [] {
      DeleteKeepsIds(st, keys[0]);
      if DeleteStatus(st, keys[0]) == Ok { KeysKeepIds(AfterDelete(st, keys[0]), keys[1..]); }
    }
  }

  lemma DeleteKeepsIds(st: TreeState, key: Bytes)
    ensures AfterDelete(st, key).rootId == st.rootId && AfterDelete(st, key).keyLimit == st.keyLimit
  {
    hide Find, Reread, LookupSaved, Has, Erase, DelStat, RangeStat, FirstMax;
  }

  /** Storage stays in this form after every statement, ready or not. */
  lemma InsertAtRest(t: TableInfo, st: TreeState, rows: seq<Row>)
    requires RowsOk(t, rows) && AtRest(t, st)
    ensures var es := EntriesOf(t, rows); var (st', s) := AfterRows(st, es);
            && RowsSized(st, es) && s != Undefined
            && WellFormed(st') && st'.rootId == t.rootId && st'.keyLimit == MAX_KEY_SIZE
            && (s == Ok ==> RootSynced(st') && AtRest(t, Closed(st')))
  {
    hide WellFormed, RootSynced, AfterRows, RowsSized, RowOk, IndexKey, Closed;
    var es := EntriesOf(t, rows);
    EntriesSized(t, st, rows);
    RowsKeepWf(st, es);
    RowsKeepIds(st, es);
    if AfterRows(st, es).1 == Ok {
      RowsSynced(st, es);
      ClosedAtRest(t, AfterRows(st, es).0);
    }
  }

  lemma DeleteAtRest(t: TableInfo, st: TreeState, rows: seq<Row>)
    requires RowsOk(t, rows) && AtRest(t, st)
    ensures var st' := AfterKeys(st, KeysOf(t, rows)).0;
            && WellFormed(st') && st'.rootId == t.rootId && st'.keyLimit == MAX_KEY_SIZE
            && RootSynced(st') && AtRest(t, Closed(st'))
  {
    hide WellFormed, RootSynced, AfterKeys, RowOk, IndexKey, Closed;
    var ks := KeysOf(t, rows);
    KeysKeepWf(st, ks);
    KeysKeepIds(st, ks);
    KeysSynced(st, ks);
    ClosedAtRest(t, AfterKeys(st, ks).0);
  }

  /** A statement that is ready does to the table what it does to the map of rows, except that a
      refused one overwrites the rows it repeats; it is refused exactly when a key is repeated. */
  lemma StatementMeaning(t: TableInfo, s: TableState, m: map<int, Row>, stmt: Statement)
    requires InfoOk(t) && StatementOk(t, stmt) && StatementReady(t, s, stmt)
    requires AtRest(t, s.tree) && Intact(s.tree) && Refines(t, Model(s.tree), s.records, m)
    ensures var s' := AfterStatement(t, s, stmt);
            && AtRest(t, s'.tree) && Intact(s'.tree) && Refines(t, Model(s'.tree), s'.records, AfterTable(t, m, stmt))
            && (Fresh(s.tree) && !stmt.ReloadInfo? ==> Fresh(s'.tree))
    ensures stmt.InsertRows? ==> (AfterRows(s.tree, EntriesOf(t, stmt.rows)).1 == Ok <==> Accepted(t, m.Keys, stmt.rows))
    ensures stmt.InsertRows? ==> AfterRows(s.tree, EntriesOf(t, stmt.rows)).1 in {Ok, DuplicateKey}
    ensures stmt.DeleteRows? ==> AfterKeys(s.tree, KeysOf(t, stmt.rows)).1 == Ok
  {
    hide Intact, Fresh, AtRest, Model, IndexMap, Stored, RowOk, AfterRows, AfterKeys, RowsReady, KeysReady, Accepted,
         Primaries, Added, Overwritten, Closed, Written, Removed, InsertedRows, DeletedKeys, RowsSized, AllFit;
    match stmt {
      case InsertRows(rows) =>
        var es := EntriesOf(t, rows);
        InsertAtRest(t, s.tree, rows);
        RowsMeaning(s.tree, es);
        InsertedIndexRows(t, m.Keys, rows);
        WriteKeeps(t, s.records, m, rows);
        ClosedKeeps(AfterRows(s.tree, es).0);
        AddedKeys(t, m, rows);
      case DeleteRows(rows) =>
        var ks := KeysOf(t, rows);
        DeleteAtRest(t, s.tree, rows);
        KeysMeaning(s.tree, ks);
        DeletedIndexKeys(t, m.Keys, rows);
        RemoveKeeps(t, s.records, m, rows);
        ClosedKeeps(AfterKeys(s.tree, ks).0);
        assert (m - Primaries(t, rows)).Keys == m.Keys - Primaries(t, rows);
      case SelectAll(_) =>
      case ReloadInfo => ReloadKeeps(t, s.tree);
    }
  }

  lemma AddedKeys(t: TableInfo, m: map<int, Row>, rows: seq<Row>)
    requires RowsOk(t, rows)
    ensures Added(t, m, rows).Keys == m.Keys + Primaries(t, rows) && Overwritten(t, m, rows).Keys == m.Keys
  {
  }
}
