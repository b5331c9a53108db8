/** Inputs on which the tree does not do what its interface promises. */
module TreeExamples {
  import opened DataOrder
  import opened OrderedMap
  import opened LeafCodec
  import opened Forest
  import opened TreeStates
  import opened TreeOps
  import opened Statements
  import opened UnsavedUpdates
  import opened UnsavedRows
  import opened UnsavedKeys

  /** A saved tree of one leaf, just opened. */
  ghost function OneLeaf(es: seq<Entry>, size: uint64): TreeState
    requires es != []
  {
    var l := LeafState(1, [], {}, es, NodeStatistics(es[0].key, es[|es| - 1].key, |es|, size), false);
    TreeState(0, EMPTY_STAT, [l], {}, map[0 := SavedRoot([Ref(l)]), 1 := SavedLeaf(es)], 1, 8192)
  }

  lemma OneLeafOk(es: seq<Entry>, size: uint64)
    requires es != [] && Sorted(es) && Sized(es, 8192)
    ensures var st := OneLeaf(es, size); Inv(st) && st.unsaved == {} && Model(st) == ToMap(es)
  {
    hide DataCmp;
    var st := OneLeaf(es, size);
    assert Views(st.leaves) == [View(st.leaves[0])];
    FlattenSingle(View(st.leaves[0]));
    assert RootRecord(st).children == [Ref(st.leaves[0])];
  }

  function Three(): seq<Entry> { [Entry([1], []), Entry([2], []), Entry([3], [])] }

  lemma ThreeOk()
    ensures Sorted(Three()) && Sized(Three(), 8192) && [1] in ToMap(Three())
  {
    hide ToMap;
    assert Less([1], [2]) && Less([2], [3]) && Less([1], [3]);
    MapAt(Three(), 0);
  }

  lemma WithoutFirst()
    ensures Erase(Three(), [1]) == [Entry([2], []), Entry([3], [])]
  {
    assert Three()[..0] + Three()[1..] == [Entry([2], []), Entry([3], [])];
  }

  /** Of a saved leaf of three keys the first two are deleted before a save: the first is back. */
  lemma DeletedKeyIsBack()
    ensures var st := OneLeaf(Three(), 22);
            && Inv(st) && st.unsaved == {} && AfterKeys(st, [[1], [2]]).1 == Ok
            && [1] in Model(AfterKeys(st, [[1], [2]]).0) && [1] !in DeletedKeys(Model(st), [[1], [2]])
  {
    hide Intact, Fresh, AfterKeys, AfterDelete, DeletedKeys, Find, WithLeafShrunk, ToMap, Erase;
    var st := OneLeaf(Three(), 22);
    ThreeOk();
    OneLeafOk(Three(), 22);
    FirstDelete(st, [1]);
    var st1 := AfterDelete(st, [1]);
    ShrunkTo(st, st1);
    IntactLeaf(st1, 0);
    FindIs(st1.leaves, [2], 0) by { IntactParts(st1); }
    SecondDelete(st, st1, 0, [1], [2]);
    TwoKeys(st, [1], [2]);
    FirstKeyIsBack(st, [1], [2]);
    DeletedGone(Model(st), [[1], [2]], [1]);
  }

  lemma ShrunkTo(st: TreeState, st1: TreeState)
    requires |st.leaves| == 1 && st.leaves[0].entries == Three() && WithLeafShrunk(st, 0, [1], st1)
    ensures |st1.leaves| == 1 && st1.leaves[0].entries == [Entry([2], []), Entry([3], [])]
  {
    WithoutFirst();
  }

  function Blob(): Bytes { seq(9000, _ => 0) }

  /** Two rows with large values. */
  function Large(): seq<Entry> { [Entry([1], Blob()), Entry([3], Blob())] }

  lemma LargeOk()
    ensures Sorted(Large()) && Sized(Large(), 8192) && [2] !in ToMap(Large())
    ensures Emplace(Large(), Entry([2], [])) == [Entry([1], Blob()), Entry([2], []), Entry([3], Blob())]
  {
    hide ToMap, Blob;
    assert |Blob()| == 9000 by { BlobSize(); }
    assert Less([1], [3]) && Less([1], [2]) && Less([2], [3]);
    KeysAreEntries(Large(), [2]);
    var s := Large();
    assert LowerBound(s[1..], [2]) == 0;
    assert s[..1] + [Entry([2], [])] + s[1..] == [Entry([1], Blob()), Entry([2], []), Entry([3], Blob())];
  }

  lemma BlobSize()
    ensures |Blob()| == 9000
  {
  }

  /** The third row splits the leaf, and the fourth goes to its left half, which gets the row
      back that moved to the right: the tree then lists more entries than there are rows. */
  lemma MovedRowIsBack()
    ensures var st, rows := OneLeaf(Large(), 18022), [Entry([2], []), Entry([0], [])];
            && Inv(st) && st.unsaved == {} && RowsSized(st, rows)
            && !RowsReady(st, rows) && AfterRows(st, rows).1 != Undefined
            && Total(AfterRows(st, rows).0.leaves) > |InsertedRows(Model(st), rows).0|
  {
    hide Intact, Fresh, AfterRows, AfterInsert, Placed, InsertedRows, Route, Model, ToMap, InsertReady, Blob, Total, RowsReady;
    var st, a, b := OneLeaf(Large(), 18022), Entry([2], []), Entry([0], []);
    LargeOk();
    OneLeafOk(Large(), 18022);
    ThirdRowSplits(st, a);
    NothingUnsaved(st);
    SettledIsReady(st, a.key);
    NextRowReadyIff(st, a, b.key);
    SmallRowsFit(st, [a, b]);
    FirstRowDefined(st, a, b);
    SecondRow(st, a, b);
    SavedIsKnown(st);
    UnreadyRowsExceed(st, [a, b]);
  }

  lemma ThirdRowSplits(st: TreeState, e: Entry)
    requires st == OneLeaf(Large(), 18022) && e == Entry([2], []) && Inv(st) && e.key !in Model(st)
    ensures |AfterInsert(st, e).leaves| != |Placed(st, e).leaves|
    ensures Touched(st, e.key) == 0 == Route(AfterInsert(st, e).leaves, [0])
    ensures !Less(st.leaves[0].entries[1].key, e.key)
  {
    hide Intact, Fresh, Model, AfterInsert, Placed, ToMap, Blob, Emplace, Reread;
    LargeOk();
    SizeTooLarge(st, e);
    SplitShape(st, e);
    NothingUnsaved(st);
    SettledIsReady(st, e.key);
    InsertMeaning(st, e);
    var st' := AfterInsert(st, e);
    IntactLeaf(st', 0);
    assert st'.leaves[0].entries == [Entry([1], Blob()), Entry([2], [])];
    assert Less([0], [2]);
  }

  lemma SizeTooLarge(st: TreeState, e: Entry)
    requires st == OneLeaf(Large(), 18022) && e == Entry([2], []) && Inv(st)
    ensures |AfterInsert(st, e).leaves| != |Placed(st, e).leaves|
  {
    hide LeavesInv, RootSynced, ToMap, Blob, Emplace, Reread, LeftHalf, RightHalf;
    LargeOk();
    NothingUnsaved(st);
    SettledIsReady(st, e.key);
    LoadKeeps(st, 0);
    assert st.leaves[0].stat == NodeStatistics([1], [3], 2, 18022);
    assert Placed(st, e).leaves[0].stat.nodeSize == 18022;
  }

  // ---- keys of more than half a node --------------------------------------------

  function LongKey(first: byte): Bytes { [first] + seq(9000, _ => 0) }

  ghost function LongLeaf(id: nat, first: byte): LeafState {
    var e := Entry(LongKey(first), []);
    LeafState(id, [], {}, [e], NodeStatistics(e.key, e.key, 1, 18022), false)
  }

  /** Three saved leaves of one long key each. */
  ghost function LongTree(): TreeState {
    var ls := [LongLeaf(1, 1), LongLeaf(2, 2), LongLeaf(3, 3)];
    TreeState(0, EMPTY_STAT, ls, {},
              map[0 := SavedRoot([Ref(ls[0]), Ref(ls[1]), Ref(ls[2])]), 1 := SavedLeaf(ls[0].entries),
                  2 := SavedLeaf(ls[1].entries), 3 := SavedLeaf(ls[2].entries)], 3, 10000)
  }

  lemma LongTreeOk()
    ensures Inv(LongTree()) && LongTree().unsaved == {}
  {
    hide WellFormed, Backed, ForestOk;
    LongForest();
    LongWf();
    var st := LongTree();
    assert RootRecord(st).children == [Ref(st.leaves[0]), Ref(st.leaves[1]), Ref(st.leaves[2])];
  }

  lemma LongForest()
    ensures ForestOk(Views(LongTree().leaves))
  {
    hide LongKey, DataCmp;
    LongOrder();
    ThreeSingletons(Entry(LongKey(1), []), Entry(LongKey(2), []), Entry(LongKey(3), []));
    var ls := LongTree().leaves;
    assert Views(ls) == [View(ls[0]), View(ls[1]), View(ls[2])];
  }

  lemma ThreeSingletons(a: Entry, b: Entry, c: Entry)
    requires Less(a.key, b.key) && Less(b.key, c.key) && Less(a.key, c.key)
    ensures ForestOk([LeafView([a], a.key, a.key), LeafView([b], b.key, b.key), LeafView([c], c.key, c.key)])
  {
    hide DataCmp;
  }

  lemma LongWf()
    ensures WellFormed(LongTree()) && Backed(LongTree())
  {
    hide LongKey, ToMap, StoredOk, DataCmp;
    LongSizes();
    LongStored();
    EmptyKeys();
    var st := LongTree();
    forall i | 0 <= i < |st.leaves| ensures LeafWf(st, st.leaves[i]) && LeafBacked(st, st.leaves[i]) {
      assert st.leaves[i] == LongLeaf(i + 1, (i + 1) as byte) && st.nodes[i + 1] == SavedLeaf(st.leaves[i].entries);
    }
  }

  lemma LongStored()
    ensures var st := LongTree(); forall k :: k in st.nodes && k != st.rootId ==> StoredOk(st.nodes[k], st.keyLimit)
  {
    hide LongKey, DataCmp;
    LongSizes();
  }

  lemma EmptyKeys()
    ensures Keys([]) == {}
  {
  }

  lemma LongSizes()
    ensures |LongKey(1)| == |LongKey(2)| == |LongKey(3)| == 9001
  {
  }

  lemma LongOrder()
    ensures Less(LongKey(1), LongKey(2)) && Less(LongKey(2), LongKey(3)) && Less(LongKey(1), LongKey(3))
    ensures Less(LongKey(1), [3]) && Less(LongKey(2), [3]) && Less([3], LongKey(3))
  {
  }

  /** After one more row the root is due for a split, which the code cannot do. */
  lemma LongKeysMakeRootDue()
    ensures var st, e := LongTree(), Entry([3], []);
            Inv(st) && RowSized(st, e) && InsertStatus(st, e) == Undefined
  {
    hide Intact, Fresh, AfterInsert, InsertStatus, TakesFreeId, InsertReady, Model, RootDue, LongKey, LongTree;
    var st, e := LongTree(), Entry([3], []);
    LongTreeOk();
    LongLimit();
    NothingUnsaved(st);
    SettledIsReady(st, e.key);
    IntactParts(st);
    InsertedWf(st, e);
    NotThere(st, e.key);
    InsertStatusIs(st, e);
    FreshIsFree(st, e);
    InsertMeaning(st, e);
    OuterKeysStay(st, e);
    UndefinedIff(st, e);
  }

  lemma LongLimit()
    ensures LongTree().keyLimit == 10000
  {
  }

  lemma LongRoute()
    ensures Route(LongTree().leaves, [3]) == 2
  {
    hide LongKey, DataCmp;
    LongOrder();
    var ls := LongTree().leaves;
    assert FirstMax(ls, [3]) == 2;
  }

  lemma NotThere(st: TreeState, key: Bytes)
    requires st == LongTree() && Inv(st) && key == [3]
    ensures key !in Model(st)
  {
    hide LongKey, ToMap, Flatten, LeavesInv, Route;
    LongRoute();
    RoutedDuplicate(st, key);
    LongSizes();
  }

  lemma OuterKeysStay(st: TreeState, e: Entry)
    requires st == LongTree() && e == Entry([3], []) && Intact(st) && Intact(AfterInsert(st, e)) && e.key !in Model(st)
    ensures var ls := AfterInsert(st, e).leaves;
            && |ls| >= 3 && |ls[0].stat.minKey| == 9001 && |ls[|ls| - 1].stat.maxKey| == 9001
  {
    hide Intact, Fresh, Model, LongKey, Route, Reread, DataCmp, Emplace;
    LongRoute();
    LongSizes();
    LongOrder();
    NothingUnsaved(st);
    SettledIsReady(st, e.key);
    PlacedShape(st, e);
    PlacedIsLarger(st, e);
  }
}
