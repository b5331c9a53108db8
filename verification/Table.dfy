/** Tables: statements that keep row records and the primary index in one store, each on a
    newly opened index, and full-table queries. */
module Tables {
  import opened DataOrder
  import opened Options
  import opened OrderedMap
  import opened TreeStates
  import opened TreeOps
  import opened Statements
  import opened BptNodes
  import opened Bptrees
  import opened ScanSpec
  import opened TreeIterators
  import opened Indexes
  import opened RowCodec
  import opened TableSpec
  import Runs = IndexRuns

  // ---- what a query answers ---------------------------------------------------

  /** What the reading loop makes of a written row; the row itself, unless it has an 8-bit
      signed integer. */
  ghost function ReadBack(row: Row): Option<Row>
    requires AllProper(row)
  {
    DecodeCells(EncodeCells(row), |row|)
  }

  /** The primary keys a full-table query can see, in ascending order, when its range is planned
      for the type `planned`. */
  ghost predicate VisibleKeys(planned: IntType, ty: IntType, ks: set<int>, vs: seq<int>) {
    && (forall i, j :: 0 <= i < j < |vs| ==> vs[i] < vs[j])
    && (forall v :: v in vs <==> v in ks && ty == planned && Visible(ty, v))
  }

  ghost predicate Selects(t: TableInfo, planned: IntType, m: map<int, Row>, rows: seq<Option<Row>>) {
    exists vs: seq<int> ::
      && VisibleKeys(planned, t.ty, m.Keys, vs) && |rows| == |vs|
      && forall i :: 0 <= i < |vs| ==> vs[i] in m && AllProper(m[vs[i]]) && rows[i] == ReadBack(m[vs[i]])
  }

  lemma {:induction false} BetweenSorted(s: seq<Entry>, o: IteratorOptions, inclusive: bool)
    requires Sorted(s)
    ensures Sorted(Between(s, o, inclusive))
  {
    hide DataCmp, AboveLower, BelowUpper;
    if s != [] {
      BetweenSorted(s[1..], o, inclusive);
      var rest := Between(s[1..], o, inclusive);
      forall i | 0 <= i < |rest| ensures Less(s[0].key, rest[i].key) {
        BetweenHas(s[1..], o, inclusive, rest[i]);
        assert rest[i] in rest;
        var j :| 0 <= j < |s[1..]| && s[1..][j] == rest[i];
        assert s[j + 1] == rest[i];
      }
    }
  }

  /** The entries a full-table query gets from the index. */
  ghost function Seen(planned: IntType, content: map<Bytes, Bytes>): seq<Entry> {
    InRange(Runs.InKeyOrder(content), FullRange(planned))
  }

  lemma SeenIsVisible(planned: IntType, ty: IntType, ks: set<int>, e: Entry)
    requires AllFit(ty, ks) && e in Seen(planned, IndexMap(ty, ks))
    ensures exists v :: v in ks && ty == planned && Visible(ty, v) && e.key == IndexKey(ty, v)
  {
    hide IndexMap, FullRange, Visible, DataCmp, IndexKey, AboveLower, BelowUpper, ToMap;
    var content, o := IndexMap(ty, ks), FullRange(planned);
    var all := Runs.InKeyOrder(content);
    BetweenHas(all, o, !o.upperOpen, e);
    var i :| 0 <= i < |all| && all[i] == e;
    MapAt(all, i);
    var v :| v in ks && e.key == IndexKey(ty, v);
    FullRangeSelects(planned, ty, v) by { KeyIs(ty, v); }
    KeyIs(ty, v);
  }

  lemma KeyIs(ty: IntType, v: int)
    requires Fits(ty, v)
    ensures IndexKey(ty, v) == EncodeCell(Int(ty, v))
  {
  }

  lemma VisibleIsSeen(ty: IntType, ks: set<int>, v: int)
    requires AllFit(ty, ks) && v in ks && Visible(ty, v)
    ensures exists i :: 0 <= i < |Seen(ty, IndexMap(ty, ks))| && Seen(ty, IndexMap(ty, ks))[i].key == IndexKey(ty, v)
  {
    hide IndexMap, FullRange, Visible, DataCmp, IndexKey, AboveLower, BelowUpper, ToMap;
    var content, o := IndexMap(ty, ks), FullRange(ty);
    var all := Runs.InKeyOrder(content);
    KeysAreEntries(all, IndexKey(ty, v));
    var i :| 0 <= i < |all| && all[i].key == IndexKey(ty, v);
    KeyIs(ty, v);
    FullRangeSelects(ty, ty, v);
    BetweenHas(all, o, !o.upperOpen, all[i]);
    var j :| 0 <= j < |Seen(ty, content)| && Seen(ty, content)[j] == all[i];
  }

  lemma VisibleOrder(ty: IntType, a: int, b: int)
    requires Fits(ty, a) && Fits(ty, b) && Visible(ty, a) && Visible(ty, b)
    ensures Less(IndexKey(ty, a), IndexKey(ty, b)) <==> a < b
  {
    hide DataCmp, EncodeCell;
    IndexOrder(ty, a, b);
  }

  ghost function SeenValue(planned: IntType, ty: IntType, ks: set<int>, e: Entry): (v: int)
    requires AllFit(ty, ks) && e in Seen(planned, IndexMap(ty, ks))
    ensures v in ks && ty == planned && Visible(ty, v) && e.key == IndexKey(ty, v)
  {
    SeenIsVisible(planned, ty, ks, e);
    var v :| v in ks && Visible(ty, v) && e.key == IndexKey(ty, v); v
  }

  /** They are the index keys of the visible rows in ascending order. */
  lemma SeenKeys(planned: IntType, ty: IntType, ks: set<int>) returns (vs: seq<int>)
    requires AllFit(ty, ks)
    ensures VisibleKeys(planned, ty, ks, vs) && |Seen(planned, IndexMap(ty, ks))| == |vs|
    ensures forall i :: 0 <= i < |vs| ==> vs[i] in ks && Seen(planned, IndexMap(ty, ks))[i].key == IndexKey(ty, vs[i])
  {
    hide IndexMap, Visible, DataCmp, IndexKey, Seen, SeenValue, RowCodec.Fits;
    var es := Seen(planned, IndexMap(ty, ks));
    SeenSorted(planned, IndexMap(ty, ks));
    vs := seq(|es|, i requires 0 <= i < |es| => SeenValue(planned, ty, ks, es[i]));
    forall i | 0 <= i < |es|
      ensures vs[i] in ks && ty == planned && Visible(ty, vs[i]) && es[i].key == IndexKey(ty, vs[i])
    {
    }
    forall i, j | 0 <= i < j < |vs| ensures vs[i] < vs[j] { VisibleOrder(ty, vs[i], vs[j]); }
    forall v | v in ks && ty == planned && Visible(ty, v) ensures v in vs {
      VisibleIsSeen(ty, ks, v);
      var i :| 0 <= i < |es| && es[i].key == IndexKey(ty, v);
      IndexKeysDiffer(ty, v, vs[i]);
    }
  }

  lemma SeenSorted(ty: IntType, content: map<Bytes, Bytes>)
    ensures Sorted(Seen(ty, content))
  {
    BetweenSorted(Runs.InKeyOrder(content), FullRange(ty), !FullRange(ty).upperOpen);
  }

  /** The range of a full-table query, as cells. */
  function FullIndexRange(ty: IntType): IndexRange {
    IndexRange([Int(ty, PlannedMin(ty))], false, [Int(ty, MaxOf(ty))], true)
  }

  lemma FullIndexRangeIs(ty: IntType)
    ensures Runs.RangesOk([FullIndexRange(ty)]) && OptionsOf(FullIndexRange(ty)) == FullRange(ty)
    ensures forall m :: Runs.RowsOf(m, [FullIndexRange(ty)]) == Seen(ty, m)
  {
    hide EncodeCell, InRange;
    PlannedFits(ty);
    OneCell(Int(ty, PlannedMin(ty)));
    OneCell(Int(ty, MaxOf(ty)));
    var r := [FullIndexRange(ty)];
    forall m ensures Runs.RowsOf(m, r) == Seen(ty, m) {
      assert Runs.RowsOf(m, r[1..]) == [];
    }
  }

  lemma OneCell(c: Cell)
    requires Proper(c)
    ensures EncodeCells([c]) == EncodeCell(c)
  {
    hide EncodeCell;
    assert [c][1..] == [] && EncodeCells([]) == [];
  }

  /** An index key that leads somewhere. */
  predicate Leads(key: Bytes) { DecodeIndexKey(key).Some? && !DecodeIndexKey(key).value.Unset? }

  function RecordKey(t: TableInfo, key: Bytes): Bytes
    requires Leads(key)
  {
    DataKey(t.db, t.table, DecodeIndexKey(key).value)
  }

  /** The row a record gives. */
  ghost function RowOf(t: TableInfo, records: map<Bytes, Bytes>, key: Bytes): Option<Row> {
    if Leads(key) && RecordKey(t, key) in records then DecodeCells(records[RecordKey(t, key)], t.columns) else None
  }

  ghost function RowsFor(t: TableInfo, records: map<Bytes, Bytes>, es: seq<Entry>): seq<Option<Row>> {
    seq(|es|, i requires 0 <= i < |es| => RowOf(t, records, es[i].key))
  }

  lemma RowsForConcat(t: TableInfo, records: map<Bytes, Bytes>, a: seq<Entry>, b: seq<Entry>)
    ensures RowsFor(t, records, a + b) == RowsFor(t, records, a) + RowsFor(t, records, b)
  {
    hide RowOf;
  }

  lemma IndexKeyLeads(t: TableInfo, v: int)
    requires RowCodec.Fits(t.ty, v) && Visible(t.ty, v)
    ensures Leads(IndexKey(t.ty, v)) && RecordKey(t, IndexKey(t.ty, v)) == Slot(t, v)
  {
    hide EncodeCell, DataKey, DecodeIndexKey;
    IndexLeadsToRow(t.db, t.table, Int(t.ty, v));
  }

  // ---- the store and its statements --------------------------------------------

  /** One table: the nodes of its primary index and its records in storage, and the largest node
      id that the description of the index keeps in memory. */
  class TableStore {
    const info: TableInfo
    const kv: KvStorage
    var records: map<Bytes, Bytes>
    var maxTreeNodeId: nat
    /** The type for which a query plans its range. */
    var planned: IntType
    /** The saved tree as a value. */
    ghost var st: TreeState

    ghost predicate Valid()
      reads this, kv
    {
      && InfoOk(info) && AtRest(info, st) && maxTreeNodeId == st.maxId
      && kv.nodes.Keys == st.nodes.Keys && forall k :: k in kv.nodes ==> Decodes(kv.nodes[k], st.nodes[k])
    }

    ghost function State(): TableState
      reads this
    {
      TableState(st, records, planned)
    }

    constructor (info: TableInfo)
      requires InfoOk(info)
      ensures Valid() && fresh(kv) && this.info == info && State() == EmptyTable(info)
    {
      EmptyTableAtRest(info);
      this.info, records, maxTreeNodeId, st := info, map[], info.rootId, EmptyTable(info).tree;
      planned := info.planned;
      kv := new KvStorage();
    }

    /** Loads the description again. It was written when the table was created, has the largest
        node id of then, and the types of the columns are not in it: the one that is left there
        stands for 64-bit integers. */
    method Reload()
      requires Valid()
      modifies this`st, this`maxTreeNodeId, this`planned
      ensures Valid() && State() == AfterStatement(info, old(State()), ReloadInfo)
    {
      hide WellFormed, RootSynced, Intact;
      ReloadKeeps(info, st);
      maxTreeNodeId, planned := info.rootId, Int64;
      st := ReopenStep(st, info.rootId);
    }

    /** Opens the index for one statement. */
    method OpenTree() returns (index: Index)
      requires Valid()
      ensures fresh(index) && fresh(index.tree) && fresh(index.tree.ctx) && fresh(index.tree.root)
      ensures forall c :: c in index.tree.root.children ==> fresh(c)
      ensures index.tree.ctx.kv == kv && index.tree.Valid() && index.tree.st == st && index.tree.ctx.maxId == st.maxId
      ensures index.maxTreeNodeId == maxTreeNodeId
    {
      hide WellFormed, RootSynced, Intact, Fresh;
      RootBelow(st);
      index := new Index(kv, info.rootId, maxTreeNodeId, st);
      Runs.MaxIdIs(index.tree);
    }

    /** One batch: the records of all rows. */
    method PutRecords(rows: seq<Row>)
      requires RowsOk(info, rows)
      modifies this`records
      ensures records == Written(info, old(records), rows)
    {
      hide EncodeCells, AllProper, Slot, Primary;
      ghost var before := records;
      for n := 0 to |rows|
        invariant records == Written(info, before, rows[..n])
      {
        WrittenSnoc(info, before, rows, n);
        var value := EncodeRowValue(rows[n]);
        records := records[Slot(info, Primary(info, rows[n])) := value];
      }
      assert rows[..|rows|] == rows;
    }

    method DelRecords(rows: seq<Row>)
      requires RowsOk(info, rows)
      modifies this`records
      ensures records == Removed(info, old(records), rows)
    {
      ghost var before := records;
      for n := 0 to |rows|
        invariant records == Removed(info, before, rows[..n])
      {
        assert rows[..n + 1][..n] == rows[..n];
        records := records - {Slot(info, Primary(info, rows[n]))};
      }
      assert rows[..|rows|] == rows;
    }

    method PrimaryEntries(rows: seq<Row>) returns (es: seq<Entry>)
      requires RowsOk(info, rows)
      ensures es == EntriesOf(info, rows)
    {
      hide IndexKey;
      es := [];
      for n := 0 to |rows|
        invariant es == EntriesOf(info, rows[..n])
      {
        assert EntriesOf(info, rows[..n + 1])
               == EntriesOf(info, rows[..n]) + [Entry(IndexKey(info.ty, Primary(info, rows[n])), [])];
        es := es + [Entry(IndexKey(info.ty, Primary(info, rows[n])), [])];
      }
      assert rows[..|rows|] == rows;
    }

    method PrimaryKeys(rows: seq<Row>) returns (ks: seq<Bytes>)
      requires RowsOk(info, rows)
      ensures ks == KeysOf(info, rows)
    {
      hide IndexKey;
      ks := [];
      for n := 0 to |rows|
        invariant ks == KeysOf(info, rows[..n])
      {
        assert KeysOf(info, rows[..n + 1]) == KeysOf(info, rows[..n]) + [IndexKey(info.ty, Primary(info, rows[n]))];
        ks := ks + [IndexKey(info.ty, Primary(info, rows[n]))];
      }
      assert rows[..|rows|] == rows;
    }

    /** The records of all rows are written first; then the rows go into the index, which is
        saved only when none was refused. */
    method Insert(rows: seq<Row>) returns (s: Status)
      requires Valid() && RowsOk(info, rows)
      modifies this, kv
      ensures Valid() && State() == AfterStatement(info, old(State()), InsertRows(rows))
      ensures s == AfterRows(old(st), EntriesOf(info, rows)).1
    {
      hide Intact, Fresh, WellFormed, RootSynced, Settled, Model, Written, AfterRows, RowsReady, RowsSized, Closed,
           InsertedRows, EntriesOf;
      ghost var st0 := st;
      var index := OpenTree();
      PutRecords(rows);
      var es := PrimaryEntries(rows);
      InsertAtRest(info, st0, rows);
      s := index.Insert(es);
      if s != Ok { return; }
      Close(index, st0);
    }

    /** The rows leave the index first, then their records go. */
    method Delete(rows: seq<Row>) returns (s: Status)
      requires Valid() && RowsOk(info, rows)
      modifies this, kv
      ensures Valid() && State() == AfterStatement(info, old(State()), DeleteRows(rows))
      ensures s == AfterKeys(old(st), KeysOf(info, rows)).1
    {
      hide Intact, Fresh, WellFormed, RootSynced, Settled, Model, Removed, AfterKeys, KeysReady, Closed, DeletedKeys, KeysOf;
      ghost var st0 := st;
      var index := OpenTree();
      var ks := PrimaryKeys(rows);
      DeleteAtRest(info, st0, rows);
      s := index.Delete(ks);
      if s != Ok { return; }
      DelRecords(rows);
      Close(index, st0);
    }

    /** Reads the records that a page of index entries leads to. */
    method ReadPage(page: seq<Entry>, rows: seq<Option<Row>>) returns (more: seq<Option<Row>>, s: Status)
      requires forall i :: 0 <= i < |page| ==> Leads(page[i].key)
      ensures s == if forall i :: 0 <= i < |page| ==> RecordKey(info, page[i].key) in records then Ok else StorageKvNotFound
      ensures s == Ok ==> more == rows + RowsFor(info, records, page)
    {
      hide DecodeIndexKey, DataKey, DecodeCells;
      more, s := rows, Ok;
      for n := 0 to |page|
        invariant more == rows + RowsFor(info, records, page[..n]) && s == Ok
        invariant forall i :: 0 <= i < n ==> RecordKey(info, page[i].key) in records
      {
        var key := RecordKey(info, page[n].key);
        if key !in records { return more, StorageKvNotFound; }
        var row := DecodeRowValue(records[key], info.columns);
        assert RowsFor(info, records, page[..n + 1]) == RowsFor(info, records, page[..n]) + [row];
        more := more + [row];
      }
      assert page[..|page|] == page;
    }

    /** The pages a scan over the whole index gives. */
    method IndexPages(pageSize: nat) returns (pages: seq<seq<Entry>>)
      requires Valid() && Intact(st) && pageSize >= 1
      ensures Runs.Paged(pages, Seen(planned, Model(st)), pageSize)
    {
      hide Intact, WellFormed, RootSynced, Settled, Model, Seen, Clean, Runs.Paged, Runs.RowsOf, ScanAll,
           Runs.AllOptions, OptionsOf, FullIndexRange;
      var index := OpenTree();
      NothingAwaits(st);
      Runs.AllSaved(index.tree);
      forall i | 0 <= i < |index.tree.root.children| ensures fresh(index.tree.root.children[i]) {
        assert index.tree.root.children[i] in index.tree.root.children;
      }
      FullIndexRangeIs(planned);
      IntactTree(st);
      Runs.ScanAllIsRows(st, [FullIndexRange(planned)]);
      pages := Runs.ScanRanges(index.tree, [FullIndexRange(planned)], pageSize);
    }

    /** Reads page after page. */
    method ReadPages(pages: seq<seq<Entry>>) returns (rows: seq<Option<Row>>, s: Status)
      requires var es := Runs.Concat(pages);
               forall i :: 0 <= i < |es| ==> Leads(es[i].key) && RecordKey(info, es[i].key) in records
      ensures s == Ok && rows == RowsFor(info, records, Runs.Concat(pages))
    {
      hide Leads, RecordKey, RowOf;
      rows, s := [], Ok;
      for n := 0 to |pages|
        invariant s == Ok && rows == RowsFor(info, records, Runs.Concat(pages[..n]))
      {
        PageOf(pages, n);
        RowsForConcat(info, records, Runs.Concat(pages[..n]), pages[n]);
        rows, s := ReadPage(pages[n], rows);
      }
      assert pages[..|pages|] == pages;
    }

    /** Answers a full-table query: the visible rows in the order of their primary keys, each as
        its record is read back. */
    method Select(pageSize: nat, ghost m: map<int, Row>) returns (rows: seq<Option<Row>>, s: Status)
      requires Valid() && Intact(st) && pageSize >= 1 && Refines(info, Model(st), records, m)
      ensures s == Ok && Selects(info, planned, m, rows)
    {
      hide Intact, AtRest, Model, IndexMap, Seen, Stored, Leads, RecordKey, Slot, IndexKey, DecodeCells, AllFit, VisibleKeys,
           Selects, RowOk;
      var pages := IndexPages(pageSize);
      ghost var es := Seen(planned, Model(st));
      ghost var vs := SeenKeys(planned, info.ty, m.Keys);
      SeenStored(m, es, vs);
      rows, s := ReadPages(pages);
      SelectsSeen(m, es, vs);
    }

    /** The entries of a query lead to the records of the visible rows. */
    lemma SeenStored(m: map<int, Row>, es: seq<Entry>, vs: seq<int>)
      requires InfoOk(info) && AllFit(info.ty, m.Keys) && Stored(info, records, m)
      requires VisibleKeys(planned, info.ty, m.Keys, vs) && |es| == |vs|
      requires forall i :: 0 <= i < |vs| ==> vs[i] in m && es[i].key == IndexKey(info.ty, vs[i])
      ensures forall i :: 0 <= i < |es| ==>
                && Leads(es[i].key) && RecordKey(info, es[i].key) in records
                && RowOk(info, m[vs[i]]) && records[RecordKey(info, es[i].key)] == EncodeCells(m[vs[i]])
    {
      hide IndexKey, RecordKey, Leads, Slot, EncodeCells, AllProper, Visible;
      forall i | 0 <= i < |es|
        ensures && Leads(es[i].key) && RecordKey(info, es[i].key) in records
                && RowOk(info, m[vs[i]]) && records[RecordKey(info, es[i].key)] == EncodeCells(m[vs[i]])
      {
        assert vs[i] in vs;
        IndexKeyLeads(info, vs[i]);
      }
    }

    lemma SelectsSeen(m: map<int, Row>, es: seq<Entry>, vs: seq<int>)
      requires VisibleKeys(planned, info.ty, m.Keys, vs) && |es| == |vs|
      requires forall i :: 0 <= i < |es| ==>
                 && vs[i] in m && Leads(es[i].key) && RecordKey(info, es[i].key) in records
                 && RowOk(info, m[vs[i]]) && records[RecordKey(info, es[i].key)] == EncodeCells(m[vs[i]])
      ensures Selects(info, planned, m, RowsFor(info, records, es))
    {
      hide RecordKey, Leads, EncodeCells, DecodeCells, Visible, Proper;
    }

    /** Saves the tree; the description of the index already has the largest node id. */
    method Close(index: Index, ghost st0: TreeState)
      requires index.tree.Valid() && AtRest(info, Closed(index.tree.st)) && index.tree.ctx.kv == kv && InfoOk(info)
      requires index.maxTreeNodeId == index.tree.ctx.maxId
      modifies this`st, this`maxTreeNodeId, index.tree, index.tree.ctx, kv
      ensures Valid() && st == Closed(old(index.tree.st)) && records == old(records)
    {
      hide Intact, Fresh, WellFormed, RootSynced, Model;
      ghost var st1 := index.tree.st;
      Runs.MaxIdIs(index.tree);
      maxTreeNodeId := index.maxTreeNodeId;
      index.Save();
      StoreIs(index.tree);
      st := Closed(st1);
    }
  }

  lemma IntactTree(st: TreeState)
    requires Intact(st)
    ensures LeavesInv(st)
  {
  }

  /** The next page is a part of all entries. */
  lemma PageOf(pages: seq<seq<Entry>>, n: nat)
    requires n < |pages|
    ensures var before, all := Runs.Concat(pages[..n]), Runs.Concat(pages);
            && Runs.Concat(pages[..n + 1]) == before + pages[n] && |before| + |pages[n]| <= |all|
            && forall i :: 0 <= i < |pages[n]| ==> pages[n][i] == all[|before| + i]
  {
    hide Runs.Concat;
    assert pages[..n] + [pages[n]] == pages[..n + 1];
    Runs.ConcatSnoc(pages[..n], pages[n]);
    PagesPrefix(pages, n + 1);
    PartOf(Runs.Concat(pages[..n]), pages[n], Runs.Concat(pages));
  }

  lemma PartOf(before: seq<Entry>, page: seq<Entry>, all: seq<Entry>)
    requires before + page <= all
    ensures |before| + |page| <= |all| && forall i :: 0 <= i < |page| ==> page[i] == all[|before| + i]
  {
    assert forall i :: 0 <= i < |page| ==> (before + page)[|before| + i] == page[i];
  }

  lemma {:induction false} PagesPrefix(pages: seq<seq<Entry>>, n: nat)
    requires n <= |pages|
    ensures Runs.Concat(pages[..n]) <= Runs.Concat(pages)
    decreases |pages|
  {
    if n == |pages| {
      assert pages[..n] == pages;
    } else {
      PagesPrefix(pages[..|pages| - 1], n);
      assert pages[..|pages| - 1][..n] == pages[..n];
    }
  }

  lemma StoreIs(t: Bptree)
    requires t.Valid()
    ensures t.ctx.kv.nodes.Keys == t.st.nodes.Keys
    ensures forall k :: k in t.ctx.kv.nodes ==> Decodes(t.ctx.kv.nodes[k], t.st.nodes[k])
  {
  }

  ghost function EmptyTable(t: TableInfo): TableState {
    TableState(TreeState(t.rootId, EMPTY_STAT, [], {}, map[], t.rootId, MAX_KEY_SIZE), map[], t.planned)
  }

  lemma EmptyTableAtRest(t: TableInfo)
    ensures AtRest(t, EmptyTable(t).tree) && Inv(EmptyTable(t).tree) && Intact(EmptyTable(t).tree) && Model(EmptyTable(t).tree) == map[]
    ensures Refines(t, map[], map[], map[])
  {
    assert ReopenStep(EmptyTable(t).tree, t.rootId).leaves == [];
  }

  // ---- runs -------------------------------------------------------------------

  datatype Outcome = Done(status: Status) | Selected(rows: seq<Option<Row>>)

  /** What storage holds, and which rows the table stands for, after a run on a new table. */
  ghost function StateAfter(t: TableInfo, stmts: seq<Statement>): TableState
    requires forall i :: 0 <= i < |stmts| ==> StatementOk(t, stmts[i])
  {
    if stmts == [] then EmptyTable(t) else AfterStatement(t, StateAfter(t, stmts[..|stmts| - 1]), stmts[|stmts| - 1])
  }

  ghost function TableAfter(t: TableInfo, stmts: seq<Statement>): map<int, Row>
    requires forall i :: 0 <= i < |stmts| ==> StatementOk(t, stmts[i])
  {
    if stmts == [] then map[] else AfterTable(t, TableAfter(t, stmts[..|stmts| - 1]), stmts[|stmts| - 1])
  }

  /** Every statement of the run finds its leaves settled. */
  ghost predicate RunReady(t: TableInfo, stmts: seq<Statement>)
    requires forall i :: 0 <= i < |stmts| ==> StatementOk(t, stmts[i])
  {
    forall n :: 0 <= n < |stmts| ==> StatementReady(t, StateAfter(t, stmts[..n]), stmts[n])
  }

  /** The type for which queries plan their range after a run. */
  ghost function PlannedAfter(t: TableInfo, stmts: seq<Statement>): IntType {
    if exists i :: 0 <= i < |stmts| && stmts[i].ReloadInfo? then Int64 else t.planned
  }

  ghost predicate Answers(t: TableInfo, planned: IntType, m: map<int, Row>, stmt: Statement, out: Outcome)
    requires StatementOk(t, stmt)
  {
    match stmt
    case InsertRows(rows) => out == Done(if Accepted(t, m.Keys, rows) then Ok else DuplicateKey)
    case DeleteRows(_) => out == Done(Ok)
    case ReloadInfo => out == Done(Ok)
    case SelectAll(_) => out.Selected? && Selects(t, planned, m, out.rows)
  }

  /** One statement on the store. */
  method Execute(store: TableStore, stmt: Statement, ghost m: map<int, Row>) returns (out: Outcome)
    requires store.Valid() && StatementOk(store.info, stmt) && StatementReady(store.info, store.State(), stmt)
    requires Intact(store.st) && Refines(store.info, Model(store.st), store.records, m)
    modifies store, store.kv
    ensures store.planned == if stmt.ReloadInfo? then Int64 else old(store.planned)
    ensures store.Valid() && Intact(store.st) && store.State() == AfterStatement(store.info, old(store.State()), stmt)
    ensures Refines(store.info, Model(store.st), store.records, AfterTable(store.info, m, stmt))
    ensures Answers(store.info, old(store.planned), m, stmt, out)
  {
    hide Model, Refines, Selects, StatementReady, AfterTable, Accepted, AtRest, RowsOk;
    MeaningOf(store, m, stmt);
    match stmt {
      case InsertRows(rows) =>
        var s := store.Insert(rows);
        out := Done(s);
      case DeleteRows(rows) =>
        var s := store.Delete(rows);
        out := Done(s);
      case SelectAll(pageSize) =>
        var rows, s := store.Select(pageSize, m);
        out := Selected(rows);
      case ReloadInfo =>
        store.Reload();
        out := Done(Ok);
    }
  }

  lemma MeaningOf(store: TableStore, m: map<int, Row>, stmt: Statement)
    requires store.Valid() && StatementOk(store.info, stmt) && StatementReady(store.info, store.State(), stmt)
    requires Intact(store.st) && Refines(store.info, Model(store.st), store.records, m)
    ensures var s' := AfterStatement(store.info, store.State(), stmt);
            Intact(s'.tree) && Refines(store.info, Model(s'.tree), s'.records, AfterTable(store.info, m, stmt))
    ensures stmt.InsertRows? ==>
              AfterRows(store.st, EntriesOf(store.info, stmt.rows)).1
              == if Accepted(store.info, m.Keys, stmt.rows) then Ok else DuplicateKey
    ensures stmt.DeleteRows? ==> AfterKeys(store.st, KeysOf(store.info, stmt.rows)).1 == Ok
  {
    hide Model, Refines, StatementReady, AfterTable, AfterStatement, Accepted, AtRest;
    StatementMeaning(store.info, store.State(), m, stmt);
  }

  lemma PlannedAtStart(t: TableInfo)
    ensures PlannedAfter(t, []) == t.planned
  {
  }

  lemma PlannedStep(t: TableInfo, stmts: seq<Statement>, n: nat)
    requires n < |stmts|
    ensures PlannedAfter(t, stmts[..n + 1]) == if stmts[n].ReloadInfo? then Int64 else PlannedAfter(t, stmts[..n])
  {
    assert stmts[..n + 1][n] == stmts[n];
    assert forall i :: 0 <= i < n ==> stmts[..n + 1][i] == stmts[..n][i];
  }

  /** Every run of statements that are ready gets the answers of a map of rows in which a
      refused insertion overwrites the rows it repeats. */
  method Run(t: TableInfo, stmts: seq<Statement>) returns (outs: seq<Outcome>)
    requires InfoOk(t) && (forall i :: 0 <= i < |stmts| ==> StatementOk(t, stmts[i])) && RunReady(t, stmts)
    ensures |outs| == |stmts|
    ensures forall i :: 0 <= i < |stmts| ==> Answers(t, PlannedAfter(t, stmts[..i]), TableAfter(t, stmts[..i]), stmts[i], outs[i])
  {
    hide Answers, Refines, AfterTable, AfterStatement, StatementReady, StatementOk, AtRest, Model, PlannedAfter, Intact;
    EmptyTableAtRest(t);
    PlannedAtStart(t);
    assert stmts[..0] == [];
    var store := new TableStore(t);
    outs := [];
    for n := 0 to |stmts|
      invariant |outs| == n && fresh(store) && fresh(store.kv) && store.info == t
      invariant store.planned == PlannedAfter(t, stmts[..n])
      invariant store.Valid() && Intact(store.st) && store.State() == StateAfter(t, stmts[..n])
      invariant Refines(t, Model(store.st), store.records, TableAfter(t, stmts[..n]))
      invariant forall i :: 0 <= i < n ==> Answers(t, PlannedAfter(t, stmts[..i]), TableAfter(t, stmts[..i]), stmts[i], outs[i])
    {
      assert stmts[..n + 1][..n] == stmts[..n];
      PlannedStep(t, stmts, n);
      var out := Execute(store, stmts[n], TableAfter(t, stmts[..n]));
      outs := outs + [out];
    }
  }

  // ---- one row per statement, and when a table is a map of rows -----------------

  /** At most one row. */
  ghost predicate OneRow(stmt: Statement) { (stmt.InsertRows? || stmt.DeleteRows?) ==> |stmt.rows| <= 1 }

  /** A statement of one row is ready, if a leaf that it splits off gets an id that no leaf has. */
  lemma OneRowReady(t: TableInfo, s: TableState, stmt: Statement)
    requires StatementOk(t, stmt) && AtRest(t, s.tree) && Intact(s.tree) && OneRow(stmt)
    ensures Fresh(s.tree) || !stmt.InsertRows? || stmt.rows == [] ==> StatementReady(t, s, stmt)
  {
    hide Intact, Fresh, Model, InsertReady, TakesFreeId, InsertStatus, LookupReady, AfterInsert, AfterDelete, IndexKey, RowOk;
    NothingAwaits(s.tree);
    match stmt {
      case InsertRows(rows) =>
        if rows != [] {
          var e := EntriesOf(t, rows)[0];
          SettledIsReady(s.tree, e.key);
          if Fresh(s.tree) { FreshIsFree(s.tree, e); }
          assert EntriesOf(t, rows)[1..] == [] && RowsReady(AfterInsert(s.tree, e), []);
        }
      case DeleteRows(rows) =>
        if rows != [] {
          SettledIsReady(s.tree, KeysOf(t, rows)[0]);
          assert KeysOf(t, rows)[1..] == [] && KeysReady(AfterDelete(s.tree, KeysOf(t, rows)[0]), []);
        }
      case _ =>
    }
  }

  lemma NothingAwaits(st: TreeState)
    requires Intact(st) && st.unsaved == {}
    ensures Settled(st) && forall i :: 0 <= i < |st.leaves| ==> st.leaves[i].id in st.nodes
  {
    forall i | 0 <= i < |st.leaves| ensures st.leaves[i].id in st.nodes { assert LeafBacked(st, st.leaves[i]); }
  }

  /** So is every run of such statements that keeps one description of the table. */
  lemma {:induction false} OneRowRunsReady(t: TableInfo, stmts: seq<Statement>)
    requires InfoOk(t)
    requires forall i :: 0 <= i < |stmts| ==> StatementOk(t, stmts[i]) && OneRow(stmts[i]) && !stmts[i].ReloadInfo?
    ensures RunReady(t, stmts) && AtRest(t, StateAfter(t, stmts).tree) && Inv(StateAfter(t, stmts).tree)
    ensures Refines(t, Model(StateAfter(t, stmts).tree), StateAfter(t, stmts).records, TableAfter(t, stmts))
  {
    hide AtRest, Intact, Fresh, Refines, Model, AfterTable, AfterStatement, StatementReady, StatementOk;
    if stmts == [] {
      EmptyTableAtRest(t);
    } else {
      var front, last := stmts[..|stmts| - 1], stmts[|stmts| - 1];
      OneRowRunsReady(t, front);
      OneRowReady(t, StateAfter(t, front), last);
      StatementMeaning(t, StateAfter(t, front), TableAfter(t, front), last);
      forall n | 0 <= n < |stmts| ensures StatementReady(t, StateAfter(t, stmts[..n]), stmts[n]) {
        assert stmts[..n] == front[..n];
      }
    }
  }

  /** What a statement does to a map of rows. */
  ghost function MapStep(t: TableInfo, m: map<int, Row>, stmt: Statement): map<int, Row>
    requires StatementOk(t, stmt)
  {
    match stmt
    case InsertRows(rows) => MapInsert(t, m, rows)
    case _ => AfterTable(t, m, stmt)
  }

  ghost function MapAfter(t: TableInfo, stmts: seq<Statement>): map<int, Row>
    requires forall i :: 0 <= i < |stmts| ==> StatementOk(t, stmts[i])
  {
    if stmts == [] then map[] else MapStep(t, MapAfter(t, stmts[..|stmts| - 1]), stmts[|stmts| - 1])
  }

  /** The statement is not refused, or repeats the rows it finds. */
  ghost predicate Harmless(t: TableInfo, m: map<int, Row>, stmt: Statement)
    requires StatementOk(t, stmt)
  {
    stmt.InsertRows? ==>
      Accepted(t, m.Keys, stmt.rows) || forall v :: v in m ==> LastOr(t, stmt.rows, v, m[v]) == m[v]
  }

  ghost predicate SameAfter(t: TableInfo, stmts: seq<Statement>, n: nat)
    requires n <= |stmts| && forall i :: 0 <= i < |stmts| ==> StatementOk(t, stmts[i])
  {
    TableAfter(t, stmts[..n]) == MapAfter(t, stmts[..n])
  }

  ghost predicate HarmlessAt(t: TableInfo, stmts: seq<Statement>, n: nat)
    requires n < |stmts| && forall i :: 0 <= i < |stmts| ==> StatementOk(t, stmts[i])
  {
    Harmless(t, TableAfter(t, stmts[..n]), stmts[n])
  }

  /** All through a run the table is the map of rows exactly when no refused insertion brings
      another row for a key that is there. */
  lemma {:induction false} TableIsMapIff(t: TableInfo, stmts: seq<Statement>, k: nat)
    requires k <= |stmts| && forall i :: 0 <= i < |stmts| ==> StatementOk(t, stmts[i])
    ensures (forall n :: 0 <= n <= k ==> SameAfter(t, stmts, n)) <==> (forall n :: 0 <= n < k ==> HarmlessAt(t, stmts, n))
    decreases k
  {
    hide SameAfter, HarmlessAt, StatementOk;
    if k == 0 {
      SameAtStart(t, stmts);
    } else {
      TableIsMapIff(t, stmts, k - 1);
      if SameAfter(t, stmts, k - 1) { SameStep(t, stmts, k - 1); }
    }
  }

  lemma SameAtStart(t: TableInfo, stmts: seq<Statement>)
    requires forall i :: 0 <= i < |stmts| ==> StatementOk(t, stmts[i])
    ensures SameAfter(t, stmts, 0)
  {
  }

  lemma SameStep(t: TableInfo, stmts: seq<Statement>, n: nat)
    requires n < |stmts| && (forall i :: 0 <= i < |stmts| ==> StatementOk(t, stmts[i])) && SameAfter(t, stmts, n)
    ensures SameAfter(t, stmts, n + 1) <==> HarmlessAt(t, stmts, n)
  {
    hide Harmless, AfterTable, MapStep, StatementOk;
    assert stmts[..n + 1][..n] == stmts[..n];
    StepIff(t, TableAfter(t, stmts[..n]), stmts[n]);
  }

  lemma StepIff(t: TableInfo, m: map<int, Row>, stmt: Statement)
    requires StatementOk(t, stmt)
    ensures AfterTable(t, m, stmt) == MapStep(t, m, stmt) <==> Harmless(t, m, stmt)
  {
    hide Accepted, TableInsert, MapInsert, RowOk;
    if stmt.InsertRows? { TableInsertIff(t, m, stmt.rows); }
  }

  /** A row is read back as it was written exactly when it has no 8-bit signed integer. */
  lemma ReadBackIff(t: TableInfo, row: Row)
    requires AllProper(row)
    ensures ReadBack(row) == Some(row) <==> forall i :: 0 <= i < |row| ==> !IsInt8(row[i])
  {
    RowRoundTripIff(row);
  }
}
