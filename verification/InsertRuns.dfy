/** Tables that rows are only inserted into. Their index values are empty and their keys all of
    one length, so that the size kept for a leaf never grows: the tree has one leaf, however many
    rows there are, and the rows of a statement never disturb each other. */
module InsertRuns {
  import opened DataOrder
  import opened OrderedMap
  import opened Codec
  import opened LeafCodec
  import opened Forest
  import opened TreeStates
  import opened TreeOps
  import opened Statements
  import opened UnsavedUpdates
  import opened UnsavedRows
  import opened UnsavedKeys
  import opened KeyVisits
  import opened RowCodec
  import opened TableSpec
  import opened Tables

  // ---- the tree ------------------------------------------------------------------

  /** What the statistics of a leaf say while no key was deleted. */
  ghost predicate Even(stat: NodeStatistics, w: nat) {
    |stat.minKey| == w && |stat.maxKey| == w && stat.nodeSize == 2 * w + 20
  }

  /** At most one leaf; before the first row, nothing is stored. */
  ghost predicate Thin(st: TreeState, w: nat) {
    && 2 * w + 20 <= MAX_NODE_SIZE && |st.leaves| <= 1
    && (st.leaves == [] ==> st.nodes == map[] && st.unsaved == {})
    && forall i :: 0 <= i < |st.leaves| ==> Even(st.leaves[i].stat, w)
  }

  ghost predicate IndexRow(e: Entry, w: nat) { |e.key| == w && e.value == [] }

  lemma AddStatEven(stat: NodeStatistics, count: nat, e: Entry, w: nat)
    requires 2 * w + 20 <= MAX_NODE_SIZE && IndexRow(e, w)
    requires if count == 1 then stat == EMPTY_STAT else Even(stat, w)
    ensures Even(AddStat(stat, count, e.key, e.value), w)
  {
    hide DataCmp, Wrap64;
    SmallSizes(w);
  }

  lemma SmallSizes(w: nat)
    requires 2 * w + 20 <= MAX_NODE_SIZE
    ensures Wrap64(0 + 0) == 0 && Wrap64(0 + w + w + 20) == 2 * w + 20
    ensures Wrap64(2 * w + 20 + 0) == 2 * w + 20 && Wrap64(2 * w + 20 - w + w) == 2 * w + 20
  {
  }

  /** A new key leaves the one leaf as large as it was. */
  lemma ThinInsert(st: TreeState, e: Entry, w: nat)
    requires Intact(st) && Settled(st) && Thin(st, w) && IndexRow(e, w) && e.key !in Model(st) && w <= st.keyLimit
    ensures RowReady(st, e) && Intact(AfterInsert(st, e)) && Settled(AfterInsert(st, e)) && Thin(AfterInsert(st, e), w)
  {
    hide Intact, Fresh, Settled, Thin, Model, AfterInsert, InsertReady, Placed;
    SettledIsReady(st, e.key);
    ThinPlaced(st, e, w);
    InsertMeaning(st, e);
  }

  lemma ThinPlaced(st: TreeState, e: Entry, w: nat)
    requires Intact(st) && InsertReady(st, e.key) && Thin(st, w) && IndexRow(e, w) && e.key !in Model(st)
    ensures TakesFreeId(st, e) && NewIdUnknown(st)
    ensures AfterInsert(st, e).leaves == Placed(st, e).leaves && Thin(AfterInsert(st, e), w)
  {
    hide Intact, Model, AddStat, Emplace, Reread, RangeStat, InsertReady;
    if st.leaves == [] {
      EmplaceIntoEmpty(e);
      AddStatEven(EMPTY_STAT, 1, e, w);
    } else {
      PlacedShape(st, e);
      PlacedIsLarger(st, e);
      IntactLeaf(st, 0);
      AddStatEven(st.leaves[0].stat, |Placed(st, e).leaves[0].kvs|, e, w);
    }
  }

  ghost predicate IndexRows(rows: seq<Entry>, w: nat) { forall i :: 0 <= i < |rows| ==> IndexRow(rows[i], w) }

  /** So all rows of a statement go in undisturbed. */
  lemma {:induction false} ThinRows(st: TreeState, rows: seq<Entry>, w: nat)
    requires Intact(st) && Settled(st) && Thin(st, w) && IndexRows(rows, w) && w <= st.keyLimit
    ensures RowsReady(st, rows)
    ensures var (st', s) := AfterRows(st, rows); s == Ok ==> Intact(st') && Settled(st') && Thin(st', w)
    decreases |rows|
  {
    hide Intact, Settled, Thin, Model, AfterInsert, InsertStatus, InsertReady, TakesFreeId;
    if rows != [] {
      SettledIsReady(st, rows[0].key);
      InsertStatusIs(st, rows[0]);
      if InsertStatus(st, rows[0]) == Ok {
        ThinInsert(st, rows[0], w);
        SameLimit(st, rows[0]);
        ThinRows(AfterInsert(st, rows[0]), rows[1..], w);
      }
    }
  }

  /** Closing, opening and reloading do not change that. */
  lemma ThinClosed(st: TreeState, w: nat, maxId: nat)
    requires Thin(st, w)
    ensures Thin(AfterSave(st), w) && Thin(ReopenStep(st, maxId), w) && Thin(Closed(st), w)
  {
    hide SavedOf;
  }

  // ---- tables --------------------------------------------------------------------

  /** All index keys of a type have this length. */
  function KeySize(ty: IntType): nat { 1 + Width(ty) }

  lemma IndexKeyIs(ty: IntType, v: int)
    requires RowCodec.Fits(ty, v)
    ensures |IndexKey(ty, v)| == KeySize(ty)
  {
    hide BigEndian;
    KeySpace.OneByte(Code(ty) as nat);
  }

  ghost predicate InsertsOnly(t: TableInfo, stmts: seq<Statement>) {
    forall i :: 0 <= i < |stmts| ==> StatementOk(t, stmts[i]) && !stmts[i].DeleteRows?
  }

  lemma InsertIsReady(t: TableInfo, s: TableState, rows: seq<Row>)
    requires RowsOk(t, rows) && AtRest(t, s.tree) && Intact(s.tree) && Thin(s.tree, KeySize(t.ty))
    ensures StatementReady(t, s, InsertRows(rows)) && Thin(AfterStatement(t, s, InsertRows(rows)).tree, KeySize(t.ty))
  {
    hide Intact, Thin, RowOk, IndexKey, AfterRows, RowsReady, Closed, Settled;
    var es, w := EntriesOf(t, rows), KeySize(t.ty);
    forall i | 0 <= i < |es| ensures IndexRow(es[i], w) { IndexKeyIs(t.ty, Primary(t, rows[i])); }
    NothingUnsaved(s.tree);
    ThinRows(s.tree, es, w);
    if AfterRows(s.tree, es).1 == Ok { ThinClosed(AfterRows(s.tree, es).0, w, 0); }
  }

  /** Every run of insertions of any number of rows, of queries and of newly loaded descriptions is
      ready, and the table stays within one leaf. */
  lemma {:induction false} InsertRunsReady(t: TableInfo, stmts: seq<Statement>)
    requires InfoOk(t) && InsertsOnly(t, stmts)
    ensures RunReady(t, stmts)
    ensures var s := StateAfter(t, stmts);
            && AtRest(t, s.tree) && Intact(s.tree) && |s.tree.leaves| <= 1 && Thin(s.tree, KeySize(t.ty))
            && Refines(t, Model(s.tree), s.records, TableAfter(t, stmts))
  {
    hide AtRest, Intact, Thin, Refines, Model, AfterTable, AfterStatement, StatementReady, StatementOk;
    if stmts == [] {
      EmptyTableAtRest(t);
      EmptyIsThin(t);
    } else {
      var front, last := stmts[..|stmts| - 1], stmts[|stmts| - 1];
      InsertRunsReady(t, front);
      NextIsReady(t, StateAfter(t, front), last);
      StatementMeaning(t, StateAfter(t, front), TableAfter(t, front), last);
      forall n | 0 <= n < |stmts| ensures StatementReady(t, StateAfter(t, stmts[..n]), stmts[n]) {
        assert stmts[..n] == front[..n];
      }
    }
    AtMostOne(StateAfter(t, stmts).tree, KeySize(t.ty));
  }

  lemma AtMostOne(st: TreeState, w: nat)
    requires Thin(st, w)
    ensures |st.leaves| <= 1
  {
  }

  lemma EmptyIsThin(t: TableInfo)
    ensures Thin(EmptyTable(t).tree, KeySize(t.ty))
  {
  }

  lemma NextIsReady(t: TableInfo, s: TableState, stmt: Statement)
    requires StatementOk(t, stmt) && !stmt.DeleteRows? && AtRest(t, s.tree) && Intact(s.tree) && Thin(s.tree, KeySize(t.ty))
    ensures StatementReady(t, s, stmt) && Thin(AfterStatement(t, s, stmt).tree, KeySize(t.ty))
  {
    hide AtRest, Intact, Thin, RowOk, AfterRows, Closed;
    match stmt {
      case InsertRows(rows) => InsertIsReady(t, s, rows);
      case ReloadInfo => ThinClosed(s.tree, KeySize(t.ty), t.rootId);
      case SelectAll(_) =>
    }
  }

  /** So such a run needs no condition at all: it gets the answers of a map of rows. */
  method RunInserts(t: TableInfo, stmts: seq<Statement>) returns (outs: seq<Outcome>)
    requires InfoOk(t) && InsertsOnly(t, stmts)
    ensures |outs| == |stmts|
    ensures forall i :: 0 <= i < |stmts| ==>
              Answers(t, PlannedAfter(t, stmts[..i]), TableAfter(t, stmts[..i]), stmts[i], outs[i])
  {
    hide RunReady, Answers, StatementOk;
    InsertRunsReady(t, stmts);
    outs := Run(t, stmts);
  }

  /** A deletion of different rows that such a table holds finds them all in one leaf: it does what
      it does to a map, and is ready, exactly when it has at most one row. */
  lemma DeleteAfterInsertsIff(t: TableInfo, stmts: seq<Statement>, rows: seq<Row>)
    requires InfoOk(t) && InsertsOnly(t, stmts) && RowsOk(t, rows)
    requires forall i :: 0 <= i < |rows| ==> Primary(t, rows[i]) in TableAfter(t, stmts)
    requires forall i, j :: 0 <= i < j < |rows| ==> Primary(t, rows[i]) != Primary(t, rows[j])
    ensures var s, keys := StateAfter(t, stmts), KeysOf(t, rows);
            && (StatementReady(t, s, DeleteRows(rows)) <==> |rows| <= 1)
            && (Lists(AfterKeys(s.tree, keys).0, DeletedKeys(Model(s.tree), keys)) && AfterKeys(s.tree, keys).1 == Ok <==>
                  |rows| <= 1)
  {
    hide Intact, Model, IndexMap, Stored, RowOk, AfterKeys, KeysReady, DeletedKeys, Lists, IndexKey, Find, TableAfter, StateAfter,
         StatementOk;
    var s, keys := StateAfter(t, stmts), KeysOf(t, rows);
    InsertRunsReady(t, stmts);
    forall a | 0 <= a < |keys| ensures keys[a] in Model(s.tree) && Find(s.tree.leaves, keys[a]) == 0 {
      IndexMapHas(t.ty, TableAfter(t, stmts).Keys, Primary(t, rows[a]));
      PresentInLeaf(s.tree, keys[a]);
    }
    forall a, b | 0 <= a < b < |keys| ensures keys[a] != keys[b] {
      IndexKeysDiffer(t.ty, Primary(t, rows[a]), Primary(t, rows[b]));
    }
    PresentKeysRightIff(s.tree, keys);
    if |rows| <= 1 {
      ApartKeysReady(s.tree, keys);
    } else {
      assert Find(s.tree.leaves, keys[0]) == Find(s.tree.leaves, keys[1]) && keys[0] != keys[1];
      if KeysReady(s.tree, keys) {
        KeysMeaning(s.tree, keys);
        IntactLists(AfterKeys(s.tree, keys).0);
      }
    }
  }
}
