/** Updates without a save in between: exactly when the next operation may still re-read
    the leaf, and what comes back when it may not. */
module UnsavedUpdates {
  import opened DataOrder
  import opened OrderedMap
  import opened Codec
  import opened Forest
  import opened TreeStates
  import opened TreeOps

  /** Cutting a leaf of two keys above both is the only cut that leaves all old keys on
      the left. */
  lemma CutKeepsOldKeysIff(es: seq<Entry>, e: Entry)
    requires Sorted(es) && e.key !in ToMap(es) && |es| >= 2
    ensures Keys(es) <= Keys(Emplace(es, e)[..Cut(|es| + 1)]) <==> |es| == 2 && Less(es[1].key, e.key)
  {
    hide DataCmp, ToMap, Emplace, Sorted, Cut;
    if |es| == 2 && Less(es[1].key, e.key) {
      CutOfTwo(es, e);
    } else {
      OldKeyMoved(es, e);
      MapAt(es, |es| - 1);
    }
  }

  lemma CutOfTwo(es: seq<Entry>, e: Entry)
    requires Sorted(es) && |es| == 2 && Less(es[1].key, e.key)
    ensures Emplace(es, e)[..Cut(3)] == es
  {
  }

  /** In every other cut the largest old key moves to the right. */
  lemma OldKeyMoved(es: seq<Entry>, e: Entry)
    requires Sorted(es) && e.key !in ToMap(es) && |es| >= 2 && !(|es| == 2 && Less(es[1].key, e.key))
    ensures es[|es| - 1].key !in Keys(Emplace(es, e)[..Cut(|es| + 1)])
  {
    hide DataCmp, ToMap, Emplace, Sorted, Has, Keys;
    var n, p := |es|, LowerBound(es, e.key);
    HasIffKey(es, e.key);
    EmplaceSpec(es, e);
    LastAfterEmplace(es, e);
    if p == n {
      assert Less(es[n - 1].key, e.key);
      MovedKey(Emplace(es, e), Cut(n + 1), n - 1);
    } else {
      MovedKey(Emplace(es, e), Cut(n + 1), n);
    }
  }

  /** Where the largest key is after a new one was put in its place. */
  lemma LastAfterEmplace(es: seq<Entry>, e: Entry)
    requires !Has(es, e.key) && es != []
    ensures |Emplace(es, e)| == |es| + 1
    ensures Emplace(es, e)[if LowerBound(es, e.key) == |es| then |es| - 1 else |es|] == es[|es| - 1]
  {
  }

  /** A key behind the cut is not before it. */
  lemma MovedKey(s: seq<Entry>, cut: nat, k: nat)
    requires Sorted(s) && cut <= k < |s|
    ensures s[k].key !in Keys(s[..cut])
  {
    hide DataCmp, ToMap;
    KeysAreEntries(s[..cut], s[k].key);
  }

  /** After an insertion into a saved tree, the next update may go ahead without a save
      exactly when no leaf was split, or the split leaf held two keys, both below the
      new one. */
  lemma InsertNeedsNoSaveIff(st: TreeState, e: Entry)
    requires Inv(st) && st.unsaved == {} && e.key !in Model(st)
    requires |e.key| <= st.keyLimit && |e.value| < UINT32_RANGE
    ensures Settled(AfterInsert(st, e)) <==>
            || |AfterInsert(st, e).leaves| == |Placed(st, e).leaves|
            || (var es := st.leaves[Touched(st, e.key)].entries; |es| == 2 && Less(es[1].key, e.key))
  {
    hide LeavesInv, RootSynced, ForestOk, Settled, Contents, Emplace, Flatten, Fresh, TakesFreeId;
    NothingUnsaved(st);
    SettledIsReady(st, e.key);
    FreshIsFree(st, e);
    InsertMeaning(st, e);
    if |AfterInsert(st, e).leaves| == |Placed(st, e).leaves| {
    } else if st.leaves == [] {
      FirstNeverSplits(st, e);
    } else {
      SplitSettledIff(st, e);
    }
  }

  lemma NothingUnsaved(st: TreeState)
    requires st.unsaved == {}
    ensures Settled(st)
  {
  }

  lemma FirstNeverSplits(st: TreeState, e: Entry)
    requires st.leaves == []
    ensures |AfterInsert(st, e).leaves| == |Placed(st, e).leaves|
  {
  }

  /** One leaf with the new entry, the rest as it was. */
  lemma PlacedShape(st: TreeState, e: Entry)
    requires Intact(st) && st.leaves != [] && InsertReady(st, e.key)
    ensures var st', i := Placed(st, e), Route(st.leaves, e.key); var l := st'.leaves[i];
            && |st'.leaves| == |st.leaves| && l.id == st.leaves[i].id
            && l.kvs == l.entries == Emplace(st.leaves[i].entries, e)
            && l.stat == AddStat(st.leaves[i].stat, |l.kvs|, e.key, e.value)
            && (forall j :: 0 <= j < |st.leaves| && j != i ==> st'.leaves[j] == st.leaves[j])
            && st'.unsaved == st.unsaved + {l.id} && st'.nodes == st.nodes
            && st'.maxId == st.maxId && st'.rootId == st.rootId
  {
    hide LeavesInv, RootSynced, LeafSettled, Emplace, Route, AddStat, LoadLeaf, Listed;
    var i := Route(st.leaves, e.key);
    LoadKeeps(st, i);
    OnlyListed(LoadLeaf(st, i).leaves[i := WithEntry(LoadLeaf(st, i).leaves[i], e)], st, i);
  }

  lemma OnlyListed(ls: seq<LeafState>, st: TreeState, i: nat)
    requires LeavesInv(st) && |ls| == |st.leaves| && i < |ls| && forall j :: 0 <= j < |ls| ==> ls[j].id == st.leaves[j].id
    ensures Listed(ls, i) == ls[i := ls[i].(listed := true)]
  {
    hide WellFormed, Backed, ForestOk;
    ListedAlone(ls, i);
  }

  /** `st'` is `st` with leaf `i` cut in two behind the new entry, and nothing else unsaved. */
  ghost predicate SplitOf(st: TreeState, i: nat, e: Entry, st': TreeState)
    requires i < |st.leaves|
  {
    var p := st.leaves[i];
    && |p.entries| >= 2 && |st'.leaves| == |st.leaves| + 1
    && st'.leaves[i].id == p.id && st'.leaves[i].entries == Emplace(p.entries, e)[..Cut(|p.entries| + 1)]
    && st'.leaves[i + 1].id == st.maxId + 1
    && (forall j :: 0 <= j < i ==> st'.leaves[j] == st.leaves[j])
    && (forall j :: i + 1 < j < |st'.leaves| ==> st'.leaves[j] == st.leaves[j - 1])
    && st'.unsaved == {p.id, st.maxId + 1, st.rootId} && st'.nodes == st.nodes
    && p.id in st.nodes && st.nodes[p.id] == SavedLeaf(p.entries)
  }

  /** What an insertion into a saved tree leaves behind when it splits a leaf. */
  lemma SplitShape(st: TreeState, e: Entry)
    requires Inv(st) && st.unsaved == {} && e.key !in Model(st) && st.leaves != []
    requires |e.key| <= st.keyLimit && |e.value| < UINT32_RANGE
    requires |AfterInsert(st, e).leaves| != |Placed(st, e).leaves|
    ensures SplitOf(st, Route(st.leaves, e.key), e, AfterInsert(st, e))
  {
    hide Intact, Fresh, WellFormed, ForestOk, Emplace, Route, Contents, RangeStat, SplitStep, Placed, LeftHalf, RightHalf,
         InsertReady;
    var i := Route(st.leaves, e.key);
    var p, st1 := st.leaves[i], Placed(st, e);
    InBackedTree(st, i);
    SettledIsReady(st, e.key) by { NothingUnsaved(st); }
    FreshIsFree(st, e);
    PlacedShape(st, e);
    PlacedIsLarger(st, e);
    PlacedKeeps(st, e);
    SplitKeeps(st1, i);
    SplitStepIs(st1, i);
    CutInTwo(st, i, e, st1);
  }

  lemma CutInTwo(st: TreeState, i: nat, e: Entry, st1: TreeState)
    requires st.unsaved == {} && i < |st.leaves| == |st1.leaves|
    requires var p, l := st.leaves[i], st1.leaves[i];
             && p.id in st.nodes && st.nodes[p.id] == SavedLeaf(p.entries)
             && l.id == p.id && l.kvs == Emplace(p.entries, e) && |l.kvs| == |p.entries| + 1
    requires forall j :: 0 <= j < |st.leaves| && j != i ==> st1.leaves[j] == st.leaves[j]
    requires st1.unsaved == st.unsaved + {st.leaves[i].id}
    requires st1.nodes == st.nodes && st1.maxId == st.maxId && st1.rootId == st.rootId
    requires SplitDue(st1.leaves[i].stat, |st1.leaves[i].kvs|)
    requires SplitStep(st1, i).leaves
             == SpliceTwo(st1.leaves, i, LeftHalf(st1.leaves[i]).(listed := true),
                          RightHalf(st1.leaves[i], st1.maxId + 1).(listed := true))
    requires SplitStep(st1, i).unsaved == st1.unsaved + {st1.maxId + 1, st1.leaves[i].id}
    requires SplitStep(st1, i).nodes == st1.nodes && SplitStep(st1, i).rootId == st1.rootId
    ensures SplitOf(st, i, e, TouchRoot(MaybeSplit(st1, i), true))
  {
    hide Emplace, RangeStat, SplitStep, LeftHalf, RightHalf, SpliceTwo;
    LeftHalfOf(st1.leaves[i]);
    UnionOfThree(st.unsaved, st.leaves[i].id, st.maxId + 1, st.rootId);
  }

  lemma UnionOfThree(s: set<nat>, a: nat, b: nat, c: nat)
    requires s == {}
    ensures s + {a} + {b, a} + {c} == {a, b, c}
  {
  }

  lemma InBackedTree(st: TreeState, i: nat)
    requires Inv(st) && st.unsaved == {} && i < |st.leaves|
    ensures LeavesInv(st) && st.leaves[i].id in st.nodes && st.nodes[st.leaves[i].id] == SavedLeaf(st.leaves[i].entries)
  {
    assert LeafBacked(st, st.leaves[i]);
  }

  lemma PlacedIsLarger(st: TreeState, e: Entry)
    requires Intact(st) && st.leaves != [] && e.key !in Model(st)
    ensures var es := st.leaves[Route(st.leaves, e.key)].entries; |Emplace(es, e)| == |es| + 1
  {
    hide DataCmp, ToMap, Flatten, Emplace, Contents, Route, ForestOk;
    LoadedLeaf(st, Route(st.leaves, e.key));
    RouteAbsent(st, e.key);
    EmplaceSpec(st.leaves[Route(st.leaves, e.key)].entries, e);
  }

  lemma LeftHalfOf(l: LeafState)
    requires |l.kvs| >= 2
    ensures LeftHalf(l).entries == l.kvs[..Cut(|l.kvs|)] && LeftHalf(l).id == l.id
    ensures forall id: nat :: RightHalf(l, id).id == id
  {
  }

  lemma SplitSettledIff(st: TreeState, e: Entry)
    requires Inv(st) && st.unsaved == {} && e.key !in Model(st) && st.leaves != []
    requires |e.key| <= st.keyLimit && |e.value| < UINT32_RANGE
    requires |AfterInsert(st, e).leaves| != |Placed(st, e).leaves|
    ensures var es := st.leaves[Touched(st, e.key)].entries;
            Settled(AfterInsert(st, e)) <==> |es| == 2 && Less(es[1].key, e.key)
  {
    hide DataCmp, ToMap, Flatten, ForestOk, Emplace, Keys, Route, AfterInsert, Placed, Contents, Sorted, WellFormed, Backed,
         RootSynced, LeafSettled;
    var i := Route(st.leaves, e.key);
    var l, st' := st.leaves[i], AfterInsert(st, e);
    SplitShape(st, e);
    LoadedLeaf(st, i);
    RouteAbsent(st, e.key);
    CutKeepsOldKeysIff(l.entries, e);
    OthersSettled(st, e);
    LeftSettledIff(st', i, l.entries);
  }

  lemma LeftSettledIff(st: TreeState, i: nat, stored: seq<Entry>)
    requires i < |st.leaves| && st.leaves[i].id in st.unsaved
    requires st.leaves[i].id in st.nodes && st.nodes[st.leaves[i].id] == SavedLeaf(stored)
    requires forall j :: 0 <= j < |st.leaves| && j != i ==> LeafSettled(st, st.leaves[j])
    ensures Settled(st) <==> Keys(stored) <= Keys(st.leaves[i].entries)
  {
  }

  lemma OthersSettled(st: TreeState, e: Entry)
    requires Inv(st) && st.unsaved == {} && e.key !in Model(st) && st.leaves != []
    requires |e.key| <= st.keyLimit && |e.value| < UINT32_RANGE
    requires |AfterInsert(st, e).leaves| != |Placed(st, e).leaves|
    ensures var st' := AfterInsert(st, e);
            forall j :: 0 <= j < |st'.leaves| && j != Route(st.leaves, e.key) ==> LeafSettled(st', st'.leaves[j])
  {
    hide DataCmp, ToMap, Flatten, ForestOk, Emplace, Keys, Route, AfterInsert, Placed, Contents, Sorted, Sized, RootSynced;
    SplitShape(st, e);
    var st', i := AfterInsert(st, e), Route(st.leaves, e.key);
    forall j | 0 <= j < |st'.leaves| && j != i ensures LeafSettled(st', st'.leaves[j]) {
      var k := if j < i then j else j - 1;
      assert LeafWf(st, st.leaves[k]);
      assert k != i ==> st.leaves[k].id != st.leaves[i].id;
    }
  }

  /** The next insertion may go ahead, too, when it goes to any other leaf than the left
      half: exactly then it finds its leaf as it should be. */
  lemma NextRowReadyIff(st: TreeState, e: Entry, key: Bytes)
    requires Inv(st) && st.unsaved == {} && e.key !in Model(st)
    requires |e.key| <= st.keyLimit && |e.value| < UINT32_RANGE
    ensures var st' := AfterInsert(st, e);
            InsertReady(st', key) <==>
              || |st'.leaves| == |Placed(st, e).leaves|
              || (var es := st.leaves[Touched(st, e.key)].entries; |es| == 2 && Less(es[1].key, e.key))
              || Route(st'.leaves, key) != Touched(st, e.key)
  {
    hide LeavesInv, RootSynced, ForestOk, Settled, Contents, Emplace, Flatten, LeafSettled, Route;
    var st' := AfterInsert(st, e);
    InsertNeedsNoSaveIff(st, e);
    if Settled(st') {
      SettledIsReady(st', key);
    } else {
      LeftHalfUnsettled(st, e);
    }
  }

  /** When the tree is not settled, it is the left half that is not, and only that. */
  lemma LeftHalfUnsettled(st: TreeState, e: Entry)
    requires Inv(st) && st.unsaved == {} && e.key !in Model(st)
    requires |e.key| <= st.keyLimit && |e.value| < UINT32_RANGE && !Settled(AfterInsert(st, e))
    ensures var st', i := AfterInsert(st, e), Touched(st, e.key);
            && st.leaves != [] && i < |st'.leaves| && !LeafSettled(st', st'.leaves[i])
            && forall j :: 0 <= j < |st'.leaves| && j != i ==> LeafSettled(st', st'.leaves[j])
  {
    hide LeavesInv, RootSynced, ForestOk, Contents, Emplace, Flatten, LeafSettled, Route;
    InsertNeedsNoSaveIff(st, e);
    if st.leaves == [] { FirstNeverSplits(st, e); }
    OthersSettled(st, e);
  }

  /** Re-reading an unsaved leaf leaves it as it is exactly when it is settled. */
  lemma ReloadHarmlessIff(st: TreeState, i: nat)
    requires LeavesInv(st) && i < |st.leaves|
    requires st.leaves[i].id in st.unsaved && st.leaves[i].id in st.nodes
    ensures Reread(st, st.leaves[i]) == st.leaves[i].entries <==> LeafSettled(st, st.leaves[i])
  {
    hide DataCmp, ToMap, ForestOk, Sized, EmplaceAll;
    LoadedLeaf(st, i);
    MergeIsNoOpIff(st.leaves[i].kvs, st.nodes[st.leaves[i].id].entries);
  }
}
