/** Statements that insert or delete the keys of many rows before a save, as functions on
    tree states and on finite maps. */
module Statements {
  import opened DataOrder
  import opened OrderedMap
  import opened Codec
  import opened TreeStates
  import opened TreeOps

  // ---- over trees ----------------------------------------------------------

  /** Row after row, up to the first that is refused. */
  ghost function AfterRows(st: TreeState, rows: seq<Entry>): (TreeState, Status)
    decreases |rows|
  {
    if rows == [] then (st, Ok)
    else if InsertStatus(st, rows[0]) != Ok then (Inserted(st, rows[0]), InsertStatus(st, rows[0]))
    else AfterRows(AfterInsert(st, rows[0]), rows[1..])
  }

  /** Key after key, up to the first whose leaf cannot be re-read. */
  ghost function AfterKeys(st: TreeState, keys: seq<Bytes>): (TreeState, Status)
    decreases |keys|
  {
    if keys == [] then (st, Ok)
    else if DeleteStatus(st, keys[0]) != Ok then (AfterDelete(st, keys[0]), DeleteStatus(st, keys[0]))
    else AfterKeys(AfterDelete(st, keys[0]), keys[1..])
  }

  ghost predicate RowSized(st: TreeState, e: Entry) { |e.key| <= st.keyLimit && |e.value| < UINT32_RANGE }

  ghost predicate RowsSized(st: TreeState, rows: seq<Entry>) { forall i :: 0 <= i < |rows| ==> RowSized(st, rows[i]) }

  lemma RestSized(st: TreeState, rows: seq<Entry>)
    requires RowsSized(st, rows) && rows != []
    ensures RowSized(st, rows[0]) && RowsSized(AfterInsert(st, rows[0]), rows[1..])
  {
    SameLimit(st, rows[0]);
  }

  lemma SameLimit(st: TreeState, e: Entry)
    ensures AfterInsert(st, e).keyLimit == st.keyLimit && AfterInsert(st, e).nodes == st.nodes
  {
    hide Route, Reread, WithEntry, LeftHalf, RightHalf, RangeStat, FirstAbove, SplitDue;
  }

  /** Rows with keys of at most half a node never make the root due for a split. */
  lemma {:induction false} SmallRowsFit(st: TreeState, rows: seq<Entry>)
    requires WellFormed(st) && RowsSized(st, rows) && 2 * st.keyLimit <= MAX_NODE_SIZE
    ensures AfterRows(st, rows).1 != Undefined
    decreases |rows|
  {
    hide WellFormed, AfterInsert, RootDue, RowsSized, Has, Located;
    if rows != [] {
      RestSized(st, rows);
      InsertedWf(st, rows[0]);
      SameLimit(st, rows[0]);
      SmallKeysNeverDue(AfterInsert(st, rows[0]));
      SmallRowsFit(AfterInsert(st, rows[0]), rows[1..]);
    }
  }

  lemma {:induction false} RowsKeepWf(st: TreeState, rows: seq<Entry>)
    requires WellFormed(st) && RowsSized(st, rows)
    ensures WellFormed(AfterRows(st, rows).0)
    decreases |rows|
  {
    hide WellFormed, AfterInsert, InsertStatus, RootDue, RowsSized, Located;
    if rows != [] {
      RestSized(st, rows);
      LocatedWf(st, rows[0].key);
      InsertedWf(st, rows[0]);
      if InsertStatus(st, rows[0]) == Ok { RowsKeepWf(AfterInsert(st, rows[0]), rows[1..]); }
    }
  }

  // ---- over a finite map ---------------------------------------------------

  /** Row after row, up to the first duplicate. */
  ghost function InsertedRows(m: map<Bytes, Bytes>, rows: seq<Entry>): (map<Bytes, Bytes>, Status)
    decreases |rows|
  {
    if rows == [] then (m, Ok)
    else if rows[0].key in m then (m, DuplicateKey)
    else InsertedRows(m[rows[0].key := rows[0].value], rows[1..])
  }

  ghost function DeletedKeys(m: map<Bytes, Bytes>, keys: seq<Bytes>): map<Bytes, Bytes>
    decreases |keys|
  {
    if keys == [] then m else DeletedKeys(m - {keys[0]}, keys[1..])
  }

  // ---- when the rows of a statement do not disturb each other ----------------

  /** Every row finds its leaf in a state in which re-reading it changes nothing, and splits
      off no leaf under the id of another one. */
  ghost predicate RowsReady(st: TreeState, rows: seq<Entry>)
    decreases |rows|
  {
    rows == [] ||
    (RowReady(st, rows[0]) && (InsertStatus(st, rows[0]) == Ok ==> RowsReady(AfterInsert(st, rows[0]), rows[1..])))
  }

  ghost predicate RowReady(st: TreeState, e: Entry) {
    InsertReady(st, e.key) && (InsertStatus(st, e) == Ok ==> TakesFreeId(st, e))
  }

  /** Without recursion: every row that is reached is ready. */
  lemma {:induction false} RowsReadyIff(st: TreeState, rows: seq<Entry>)
    ensures RowsReady(st, rows) <==>
              forall n :: 0 <= n < |rows| && AfterRows(st, rows[..n]).1 == Ok ==> RowReady(AfterRows(st, rows[..n]).0, rows[n])
    decreases |rows|
  {
    hide RowReady, AfterInsert, Inserted, InsertStatus;
    if rows != [] {
      var e, rest := rows[0], rows[1..];
      assert AfterRows(st, rows[..0]) == (st, Ok);
      forall n | 0 <= n < |rest|
        ensures AfterRows(st, rows[..n + 1])
                == if InsertStatus(st, e) == Ok then AfterRows(AfterInsert(st, e), rest[..n])
                   else (Inserted(st, e), InsertStatus(st, e))
      {
        assert rows[..n + 1][0] == e && rows[..n + 1][1..] == rest[..n];
      }
      if InsertStatus(st, e) == Ok {
        RowsReadyIff(AfterInsert(st, e), rest);
        if RowsReady(st, rows) {
          forall n | 0 <= n < |rows| && AfterRows(st, rows[..n]).1 == Ok ensures RowReady(AfterRows(st, rows[..n]).0, rows[n]) {
            if n > 0 { assert rows[n] == rest[n - 1]; }
          }
        } else if RowReady(st, e) {
          var n :| 0 <= n < |rest| && AfterRows(AfterInsert(st, e), rest[..n]).1 == Ok
                   && !RowReady(AfterRows(AfterInsert(st, e), rest[..n]).0, rest[n]);
          assert rows[n + 1] == rest[n] && AfterRows(st, rows[..n + 1]).1 == Ok;
        }
      }
    }
  }

  ghost predicate KeysReady(st: TreeState, keys: seq<Bytes>)
    decreases |keys|
  {
    keys == [] ||
    (LookupReady(st, keys[0]) && LookupSaved(st, keys[0]) && KeysReady(AfterDelete(st, keys[0]), keys[1..]))
  }

  /** Then the statement does to the tree what it does to a map. */
  lemma {:induction false} RowsMeaning(st: TreeState, rows: seq<Entry>)
    requires Intact(st) && RowsReady(st, rows) && RowsSized(st, rows)
    ensures var (st', s) := AfterRows(st, rows);
            s != Undefined ==>
              Intact(st') && (Fresh(st) ==> Fresh(st')) && (Model(st'), s) == InsertedRows(Model(st), rows)
    decreases |rows|
  {
    hide Intact, Fresh, AfterInsert, InsertStatus, RowsSized, Located, InsertReady, TakesFreeId, Model;
    if rows != [] {
      RestSized(st, rows);
      InsertStatusIs(st, rows[0]);
      if InsertStatus(st, rows[0]) == Ok {
        InsertMeaning(st, rows[0]);
        RowsMeaning(AfterInsert(st, rows[0]), rows[1..]);
      }
    }
  }

  lemma {:induction false} KeysMeaning(st: TreeState, keys: seq<Bytes>)
    requires Intact(st) && KeysReady(st, keys)
    ensures Intact(AfterKeys(st, keys).0) && AfterKeys(st, keys).1 == Ok && (Fresh(st) ==> Fresh(AfterKeys(st, keys).0))
    ensures Model(AfterKeys(st, keys).0) == DeletedKeys(Model(st), keys)
    decreases |keys|
  {
    hide Intact, Fresh, AfterDelete, LookupReady, LookupSaved, Model;
    if keys != [] {
      DeleteMeaning(st, keys[0]);
      KeysMeaning(AfterDelete(st, keys[0]), keys[1..]);
    }
  }

  /** No insertion but the last splits a leaf. */
  ghost predicate SplitsOnlyAtEnd(st: TreeState, rows: seq<Entry>)
    decreases |rows|
  {
    |rows| <= 1 || rows[0].key in Model(st) ||
    (|AfterInsert(st, rows[0]).leaves| == |Placed(st, rows[0]).leaves|
     && SplitsOnlyAtEnd(AfterInsert(st, rows[0]), rows[1..]))
  }

  lemma {:induction false} QuietRowsAreReady(st: TreeState, rows: seq<Entry>)
    requires Inv(st) && Settled(st) && SplitsOnlyAtEnd(st, rows) && RowsSized(st, rows)
    ensures RowsReady(st, rows)
    decreases |rows|
  {
    hide Intact, Fresh, Settled, InsertReady, TakesFreeId, AfterInsert, InsertStatus, Placed, Model, RowsSized;
    if rows != [] {
      SettledIsReady(st, rows[0].key);
      FreshIsFree(st, rows[0]);
      InsertStatusIs(st, rows[0]);
      if InsertStatus(st, rows[0]) == Ok {
        RestSized(st, rows);
        InsertMeaning(st, rows[0]);
        if |rows| > 1 { QuietRowsAreReady(AfterInsert(st, rows[0]), rows[1..]); } else { assert rows[1..] == []; }
      }
    }
  }
}
