/** Ids of new leaves. A tree opened with a maximum below ids in use gives out an id a second
    time: exactly when an insertion survives the next save, and when a new leaf may be re-read. */
module NodeIds {
  import opened DataOrder
  import opened OrderedMap
  import opened Codec
  import opened Forest
  import opened TreeStates
  import opened TreeOps
  import opened Statements
  import opened UnsavedUpdates
  import opened UnsavedRows

  // ---- what is left in storage ------------------------------------------------

  /** Storage has for leaf `n` what some leaf other than `lost` holds. */
  ghost predicate StoredFrom(st: TreeState, lost: nat, n: nat)
    requires n < |st.leaves|
  {
    exists w :: 0 <= w < |st.leaves| && w != lost
                && StoredEntries(AfterSave(st).nodes, st.leaves[n].id) == st.leaves[w].entries
  }

  /** A leaf that storage has for no id is lost with its keys. */
  lemma LostKey(st: TreeState, lost: nat, maxId: nat)
    requires ForestOk(Views(st.leaves)) && lost < |st.leaves|
    requires forall n :: 0 <= n < |st.leaves| ==> StoredFrom(st, lost, n)
    ensures Model(ReopenStep(AfterSave(st), maxId)) != Model(st)
  {
    hide DataCmp, ToMap, Flatten, Sorted, SavedOf;
    var vs, st' := Views(st.leaves), ReopenStep(AfterSave(st), maxId);
    var k := vs[lost].entries[0].key;
    MapAt(vs[lost].entries, 0);
    LeafWithinModel(vs, lost);
    if k in Model(st') {
      KeyInSomeLeaf(Views(st'.leaves), k);
      var n :| 0 <= n < |st'.leaves| && k in ToMap(Views(st'.leaves)[n].entries);
      assert StoredFrom(st, lost, n);
      var w :| 0 <= w < |st.leaves| && w != lost
               && StoredEntries(AfterSave(st).nodes, st.leaves[n].id) == st.leaves[w].entries;
      LeafRange(vs[w], k);
      LeafRange(vs[lost], k);
      OneRange(vs, w, lost, k);
    }
  }

  lemma OneRange(vs: seq<LeafView>, a: nat, b: nat, k: Bytes)
    requires ForestOk(vs) && a < |vs| && b < |vs|
    requires LessEq(vs[a].minKey, k) && LessEq(k, vs[a].maxKey) && LessEq(vs[b].minKey, k) && LessEq(k, vs[b].maxKey)
    ensures a == b
  {
    hide LeafOk, DataCmp;
  }

  lemma StoredOfListed(st: TreeState, n: nat)
    requires WellFormed(st) && n < |st.leaves| && st.leaves[n].listed
    ensures StoredEntries(AfterSave(st).nodes, st.leaves[n].id) == st.leaves[n].kvs
  {
    hide SavedOf, IsListed;
    WfLeaf(st, n);
    OwnId(st, st.leaves[n]);
    SavedLeafOf(st, n);
  }

  lemma StoredOfOther(st: TreeState, id: nat)
    requires id !in st.unsaved
    ensures StoredEntries(AfterSave(st).nodes, id) == StoredEntries(st.nodes, id)
  {
    hide SavedOf;
  }

  // ---- a split under an id in use -----------------------------------------------

  ghost predicate SameBut(l: LeafState, l': LeafState) { l' == l.(listed := l'.listed) }

  /** `st'` is `st` with leaf `i` cut in two, the right half under the next id, whoever has it. */
  ghost predicate CutAt(st: TreeState, i: nat, st': TreeState)
    requires i < |st.leaves|
  {
    && |st'.leaves| == |st.leaves| + 1
    && st'.leaves[i].id == st.leaves[i].id && st'.leaves[i].listed && st'.leaves[i].kvs == st'.leaves[i].entries
    && st'.leaves[i + 1].id == st.maxId + 1 && st'.leaves[i + 1].kvs == st'.leaves[i + 1].entries
    && (st'.leaves[i + 1].listed <==> st.leaves[i].id != st.maxId + 1)
    && (forall j :: 0 <= j < i ==> SameBut(st.leaves[j], st'.leaves[j]))
    && (forall j :: i + 1 < j < |st'.leaves| ==> SameBut(st.leaves[j - 1], st'.leaves[j]))
  }

  lemma CutIs(st: TreeState, i: nat)
    requires ForestOk(Views(st.leaves)) && i < |st.leaves|
    requires st.leaves[i].kvs == st.leaves[i].entries && |st.leaves[i].kvs| >= 2
    ensures CutAt(st, i, SplitStep(st, i))
    ensures SplitStep(st, i).unsaved == st.unsaved + {st.maxId + 1} + {st.leaves[i].id}
  {
    hide ForestOk, SplitStep, LeftHalf, RightHalf, SplitLeaves, RightAt, LeftAt, SpliceTwo;
    var ms := SplitLeaves(st.leaves, i, st.maxId + 1);
    SplitContent(st, i);
    SplitStepIs(st, i);
    HalfIds(st.leaves[i], st.maxId + 1);
    HalvesHeld(st.leaves[i], st.maxId + 1);
    var ls := SplitStep(st, i).leaves;
    forall j | 0 <= j < |ls| ensures SameBut(ms[j], ls[j]) {
    }
  }

  lemma HalvesHeld(l: LeafState, id: nat)
    requires |l.kvs| >= 2
    ensures LeftHalf(l).kvs == LeftHalf(l).entries && RightHalf(l, id).kvs == RightHalf(l, id).entries
  {
  }

  /** The leaves after a split, and which of them are to be saved. */
  lemma SplitOutcome(st: TreeState, e: Entry)
    requires Intact(st) && st.unsaved == {} && e.key !in Model(st) && st.leaves != []
    requires |e.key| <= st.keyLimit && |e.value| < UINT32_RANGE
    requires |AfterInsert(st, e).leaves| != |Placed(st, e).leaves|
    ensures var st', i := AfterInsert(st, e), Route(st.leaves, e.key);
            && CutAt(st, i, st') && ForestOk(Views(st'.leaves)) && Model(st') == Model(st)[e.key := e.value]
            && st'.nodes == st.nodes && st'.unsaved == {st.leaves[i].id, st.maxId + 1, st.rootId}
  {
    hide Intact, LeavesInv, ForestOk, Emplace, Route, Contents, RangeStat, SplitStep, Placed, InsertReady, CutAt;
    var i, st1 := Route(st.leaves, e.key), Placed(st, e);
    NothingUnsaved(st);
    SettledIsReady(st, e.key);
    PlacedShape(st, e);
    PlacedIsForest(st, e);
    SplitContent(st1, i);
    CutIs(st1, i);
    SplitStepIs(st1, i);
    CutOfPlaced(st, i, st1, SplitStep(st1, i), AfterInsert(st, e));
    UnionOfThree(st.unsaved, st.leaves[i].id, st.maxId + 1, st.rootId);
  }

  lemma PlacedIsForest(st: TreeState, e: Entry)
    requires Intact(st) && e.key !in Model(st) && InsertReady(st, e.key)
    requires |e.key| <= st.keyLimit && |e.value| < UINT32_RANGE
    ensures ForestOk(Views(Placed(st, e).leaves)) && Model(Placed(st, e)) == Model(st)[e.key := e.value]
  {
    hide WellFormed, Backed, ForestOk, Placed, InsertReady, Contents;
    PlacedKeeps(st, e);
  }

  lemma CutOfPlaced(st: TreeState, i: nat, st1: TreeState, st2: TreeState, st': TreeState)
    requires i < |st.leaves| == |st1.leaves| && st1.leaves[i].id == st.leaves[i].id && st1.maxId == st.maxId
    requires forall j :: 0 <= j < |st.leaves| && j != i ==> st1.leaves[j] == st.leaves[j]
    requires CutAt(st1, i, st2) && st'.leaves == st2.leaves
    ensures CutAt(st, i, st')
  {
  }

  /** The leaf that loses its place in storage when the right half of leaf `i` gets the id of
      leaf `j`: the right half itself if that is its left half, leaf `j` otherwise. */
  ghost function LostAt(i: nat, j: nat): nat { if j < i then j else j + 1 }

  lemma OneIsLost(st: TreeState, i: nat, st': TreeState, j: nat)
    requires WellFormed(st') && Backed(st) && DistinctIds(st.leaves) && st.unsaved == {}
    requires i < |st.leaves| && j < |st.leaves| && st.leaves[j].id == st.maxId + 1 && CutAt(st, i, st')
    requires st'.nodes == st.nodes && st'.unsaved == {st.leaves[i].id, st.maxId + 1, st'.rootId}
    ensures LostAt(i, j) < |st'.leaves| && forall n :: 0 <= n < |st'.leaves| ==> StoredFrom(st', LostAt(i, j), n)
  {
    hide AfterSave, WellFormed, Backed;
    forall n | 0 <= n < |st'.leaves| ensures StoredFrom(st', LostAt(i, j), n) {
      if st'.leaves[n].id == st.maxId + 1 {
        StoredOfListed(st', if j == i then i else i + 1);
      } else if n == i {
        StoredOfListed(st', i);
      } else {
        OthersStored(st, i, st', n);
      }
    }
  }

  lemma OthersStored(st: TreeState, i: nat, st': TreeState, n: nat)
    requires WellFormed(st') && Backed(st) && DistinctIds(st.leaves) && st.unsaved == {}
    requires i < |st.leaves| && CutAt(st, i, st') && n < |st'.leaves| && n != i && st'.leaves[n].id != st.maxId + 1
    requires st'.nodes == st.nodes && st'.unsaved == {st.leaves[i].id, st.maxId + 1, st'.rootId}
    ensures StoredEntries(AfterSave(st').nodes, st'.leaves[n].id) == st'.leaves[n].entries
  {
    hide AfterSave, WellFormed, LeafWf;
    var k := if n < i then n else n - 1;
    WfLeaf(st', n);
    OwnId(st', st'.leaves[n]);
    assert SameBut(st.leaves[k], st'.leaves[n]) && LeafBacked(st, st.leaves[k]);
    StoredOfOther(st', st'.leaves[n].id);
  }

  /** On a saved tree, opened with whatever maximum: what an insertion leaves in storage is the
      map with the new entry exactly when no leaf was split, or the id of the right half was
      that of no leaf. */
  lemma InsertStoredIff(st: TreeState, e: Entry, maxId: nat)
    requires Intact(st) && st.unsaved == {} && e.key !in Model(st)
    requires |e.key| <= st.keyLimit && |e.value| < UINT32_RANGE && st.rootId <= maxId
    ensures Model(ReopenStep(AfterSave(AfterInsert(st, e)), maxId)) == Model(st)[e.key := e.value] <==> TakesFreeId(st, e)
  {
    hide Intact, Fresh, TakesFreeId, AfterInsert, Model, CutAt, InsertReady;
    NothingUnsaved(st);
    SettledIsReady(st, e.key);
    var st' := AfterInsert(st, e);
    if TakesFreeId(st, e) {
      InsertMeaning(st, e);
      SaveKeeps(st');
      SameRootId(st, e);
      ReopenKeeps(AfterSave(st'), maxId);
    } else {
      ClashLoses(st, e, maxId);
    }
  }

  lemma SameRootId(st: TreeState, e: Entry)
    ensures AfterInsert(st, e).rootId == st.rootId
  {
    hide Route, Reread, WithEntry, LeftHalf, RightHalf, RangeStat, FirstAbove, SplitDue;
  }

  lemma ClashLoses(st: TreeState, e: Entry, maxId: nat)
    requires Intact(st) && st.unsaved == {} && e.key !in Model(st) && !TakesFreeId(st, e)
    requires |e.key| <= st.keyLimit && |e.value| < UINT32_RANGE
    ensures Model(ReopenStep(AfterSave(AfterInsert(st, e)), maxId)) != Model(st)[e.key := e.value]
  {
    hide Fresh, AfterInsert, Placed, Model, CutAt, InsertReady, WellFormed, ForestOk, RootSynced, Backed, StoredFrom;
    ClashSplits(st, e);
    SplitOutcome(st, e);
    InsertedWf(st, e);
    SameRootId(st, e);
    var st', i := AfterInsert(st, e), Route(st.leaves, e.key);
    var j :| 0 <= j < |st.leaves| && st.leaves[j].id == st.maxId + 1;
    OneIsLost(st, i, st', j);
    LostKey(st', LostAt(i, j), maxId);
  }

  lemma ClashSplits(st: TreeState, e: Entry)
    requires !TakesFreeId(st, e)
    ensures st.leaves != [] && !IdFree(st) && |AfterInsert(st, e).leaves| != |Placed(st, e).leaves|
  {
    hide Route, Reread, SplitStep;
    if st.leaves == [] { EmplaceIntoEmpty(e); }
  }

  // ---- a new leaf under an id that storage knows ----------------------------------

  /** Storage has nothing under the id of the first leaf but what the first row brings. */
  ghost predicate NothingOld(st: TreeState, key: Bytes) {
    st.maxId + 1 in st.nodes ==> st.nodes[st.maxId + 1].SavedLeaf? && Keys(st.nodes[st.maxId + 1].entries) <= {key}
  }

  lemma FirstInsert(st: TreeState, e: Entry)
    requires Intact(st) && st.leaves == [] && |e.key| <= st.keyLimit && |e.value| < UINT32_RANGE
    ensures var st' := AfterInsert(st, e);
            && Intact(st') && e.key !in Model(st) && Model(st') == Model(st)[e.key := e.value]
            && |st'.leaves| == 1 && st'.leaves[0].id == st.maxId + 1 == st'.maxId
            && st'.leaves[0].kvs == st'.leaves[0].entries == [e]
            && st'.nodes == st.nodes && st'.unsaved == st.unsaved + {st.maxId + 1} + {st.rootId}
    ensures InsertReady(st, e.key) && TakesFreeId(st, e) && st.maxId + 1 != st.rootId
  {
    hide WellFormed, Backed, ForestOk, RootSynced, Contents, AddStat, RangeStat;
    IntactParts(st);
    FirstKeeps(st, e);
    EmplaceIntoEmpty(e);
    InsertMeaning(st, e);
  }

  /** The next row may re-read the first leaf exactly when storage has no other key for it. */
  lemma NewLeafReadyIff(st: TreeState, e: Entry, key: Bytes)
    requires Intact(st) && st.leaves == [] && |e.key| <= st.keyLimit && |e.value| < UINT32_RANGE
    ensures InsertReady(AfterInsert(st, e), key) <==> NothingOld(st, e.key)
  {
    hide Intact, AfterInsert, ToMap, Model;
    FirstInsert(st, e);
    ToMapSingle(e);
    StoredLeaves(st, st.maxId + 1);
  }

  lemma StoredLeaves(st: TreeState, k: nat)
    requires Intact(st)
    ensures k in st.nodes && k != st.rootId ==> st.nodes[k].SavedLeaf? && Sorted(st.nodes[k].entries)
  {
    hide Backed, ForestOk, RootSynced;
  }

  /** Two rows on a saved tree without leaves, opened with whatever maximum: they go in as into a
      map exactly when storage has no other key than the first for the id of the new leaf. */
  lemma TwoNewRowsRightIff(st: TreeState, a: Entry, b: Entry)
    requires Intact(st) && st.leaves == [] && RowSized(st, a) && RowSized(st, b) && AfterRows(st, [a, b]).1 != Undefined
    ensures var (st', s), (m', s') := AfterRows(st, [a, b]), InsertedRows(Model(st), [a, b]);
            Lists(st', m') && s == s' <==> NothingOld(st, a.key)
  {
    hide Intact, AfterInsert, InsertReady, InsertStatus, TakesFreeId, Model, Lists, AfterRows, InsertedRows, NothingOld, Fresh;
    var st1 := AfterInsert(st, a);
    FirstInsert(st, a);
    NewLeafReadyIff(st, a, b.key);
    FirstRowDefined(st, a, b);
    InsertStatusIs(st, a);
    SameLimit(st, a);
    BothRows(st, a, b);
    if NothingOld(st, a.key) {
      NextIsFree(st1, b);
      RowsMeaning(st, [a, b]);
      IntactLists(AfterRows(st, [a, b]).0);
    } else {
      OldKeysBack(st, a, b);
    }
  }

  lemma NextIsFree(st: TreeState, e: Entry)
    requires |st.leaves| == 1 && st.leaves[0].id == st.maxId
    ensures TakesFreeId(st, e)
  {
    hide Placed, SplitDue;
  }

  lemma BothRows(st: TreeState, a: Entry, b: Entry)
    requires InsertStatus(st, a) == Ok
    ensures AfterRows(st, [a, b]) == (Inserted(AfterInsert(st, a), b), InsertStatus(AfterInsert(st, a), b))
    ensures RowsReady(st, [a, b]) <==> RowReady(st, a) && RowReady(AfterInsert(st, a), b)
    ensures a.key !in Model(st) ==>
              InsertedRows(Model(st), [a, b])
              == if a.key == b.key || b.key in Model(st) then (Model(st)[a.key := a.value], DuplicateKey)
                 else (Model(st)[a.key := a.value][b.key := b.value], Ok)
  {
    hide AfterInsert, InsertStatus, Located, Model, RowReady;
    var st1 := AfterInsert(st, a);
    assert [a, b][1..] == [b] && [b][1..] == [];
    assert AfterRows(st1, [b]) == (Inserted(st1, b), InsertStatus(st1, b));
    assert RowsReady(st1, [b]) <==> RowReady(st1, b);
    var m1 := Model(st)[a.key := a.value];
    assert InsertedRows(m1, [b]) == if b.key in m1 then (m1, DuplicateKey) else (m1[b.key := b.value], Ok);
  }

  /** The second row re-reads what storage has under the id: one entry too many. */
  lemma OldKeysBack(st: TreeState, a: Entry, b: Entry)
    requires Intact(st) && st.leaves == [] && RowSized(st, a) && RowSized(st, b) && AfterRows(st, [a, b]).1 != Undefined
    requires !NothingOld(st, a.key) && InsertStatus(st, a) == Ok
    ensures var (st', s), (m', s') := AfterRows(st, [a, b]), InsertedRows(Model(st), [a, b]);
            Lists(st', m') ==> s != s'
  {
    hide Intact, AfterInsert, InsertStatus, Model, Lists, AfterRows, InsertedRows, NothingOld, Total;
    FirstInsert(st, a);
    NoneThere(st);
    BothRows(st, a, b);
    SecondGrows(st, AfterInsert(st, a), a, b);
    var st', m' := AfterRows(st, [a, b]).0, InsertedRows(Model(st), [a, b]).0;
    if Lists(st', m') { ListedTotal(st', m'); }
  }

  lemma NoneThere(st: TreeState)
    requires st.leaves == []
    ensures Model(st) == map[]
  {
    assert Views(st.leaves) == [];
  }

  lemma SecondGrows(st: TreeState, st1: TreeState, a: Entry, b: Entry)
    requires Intact(st) && !NothingOld(st, a.key) && st.maxId + 1 != st.rootId
    requires |st1.leaves| == 1 && st1.leaves[0].id == st.maxId + 1 && st1.leaves[0].kvs == [a] && st1.nodes == st.nodes
    ensures Total(Located(st1, b.key).leaves) >= 2
    ensures InsertStatus(st1, b) != DuplicateKey ==> Total(AfterInsert(st1, b).leaves) >= 3
  {
    hide Intact, ToMap, DataCmp, EmplaceAll, Total, MaybeSplit, Has, InsertStep;
    StoredLeaves(st, st.maxId + 1);
    var stored, l := st.nodes[st.maxId + 1].entries, st1.leaves[0];
    ToMapSingle(a);
    MergeKeys([a], stored);
    SortedSize(Reread(st1, l));
    Subset({a.key}, Keys(stored));
    OneTotal(Located(st1, b.key).leaves);
    assert Keys([a]) == {a.key};
    assert |{a.key} + Keys(stored)| > |{a.key}| == 1;
    assert Located(st1, b.key).leaves[0].entries == Reread(st1, l) == EmplaceAll([a], stored);
    if InsertStatus(st1, b) != DuplicateKey { PlacedTotal(st1, b); }
  }

  lemma OneTotal(ls: seq<LeafState>)
    requires |ls| == 1
    ensures Total(ls) == |ls[0].entries|
  {
    assert ls[1..] == [];
  }

  lemma PlacedTotal(st: TreeState, e: Entry)
    requires |st.leaves| == 1 && InsertStatus(st, e) != DuplicateKey
    ensures Total(AfterInsert(st, e).leaves) == Total(Located(st, e.key).leaves) + 1
  {
    hide Total, Reread, AddStat, SplitStep, RangeStat;
    var st1 := Placed(st, e);
    OneTotal(Located(st, e.key).leaves);
    OneTotal(st1.leaves);
    if SplitDue(st1.leaves[0].stat, |st1.leaves[0].kvs|) {
      SplitTotal(st1, 0);
    }
  }
}
