/** The three tree operations as functions on tree states, and what they mean for the
    finite map the tree stands for. */
module TreeOps {
  import opened DataOrder
  import opened OrderedMap
  import opened Codec
  import opened Forest
  import opened TreeStates

  /** Where an insertion goes: a key beyond every range goes to the last leaf. */
  ghost function Route(ls: seq<LeafState>, key: Bytes): (i: nat)
    requires ls != []
    ensures i < |ls|
  {
    var i := FirstMax(ls, key);
    if i == |ls| then i - 1 else i
  }

  /** Where a lookup goes: the leaf whose range holds `key`, or the leaf count. */
  ghost function Find(ls: seq<LeafState>, key: Bytes): (i: nat)
    ensures i <= |ls|
  {
    var i := FirstMax(ls, key);
    if i < |ls| && LessEq(ls[i].stat.minKey, key) then i else |ls|
  }

  ghost function Touched(st: TreeState, key: Bytes): nat {
    if st.leaves == [] then 0 else Route(st.leaves, key)
  }

  /** The leaf for `key` is in memory: re-read, or newly made for an empty tree. */
  ghost function Located(st: TreeState, key: Bytes): (st': TreeState)
    ensures Touched(st, key) < |st'.leaves|
  {
    if st.leaves == [] then NewLeaf(st) else LoadLeaf(st, Route(st.leaves, key))
  }

  /** After an insertion that makes the root due for a split nothing is defined. */
  ghost function InsertStatus(st: TreeState, e: Entry): Status {
    if Has(Located(st, e.key).leaves[Touched(st, e.key)].kvs, e.key) then DuplicateKey
    else if RootDue(AfterInsert(st, e)) then Undefined
    else Ok
  }

  /** The entry is in the leaf, the statistics still old. */
  ghost function EntryPut(st: TreeState, i: nat, e: Entry): (st': TreeState)
    requires i < |st.leaves|
    ensures |st'.leaves| == |st.leaves|
  {
    var l := st.leaves[i];
    PutLeaf(st, i, l.(kvs := Emplace(l.kvs, e), written := l.written + {e.key}, entries := Emplace(l.kvs, e)))
  }

  ghost function StatPut(st: TreeState, i: nat, e: Entry): (st': TreeState)
    requires i < |st.leaves|
    ensures |st'.leaves| == |st.leaves|
  {
    var l := st.leaves[i];
    PutLeaf(st, i, l.(stat := AddStat(l.stat, |l.kvs|, e.key, e.value)))
  }

  /** The leaf has its new entry; nothing was split yet. */
  ghost function Placed(st: TreeState, e: Entry): (st': TreeState)
    ensures Touched(st, e.key) < |st'.leaves|
  {
    InsertStep(Located(st, e.key), Touched(st, e.key), e)
  }

  /** The leaf was split if its size asked for it. */
  ghost function MaybeSplit(st: TreeState, i: nat): (st': TreeState)
    requires i < |st.leaves|
    ensures st'.leaves != []
  {
    if SplitDue(st.leaves[i].stat, |st.leaves[i].kvs|) then SplitStep(st, i) else st
  }

  ghost function AfterInsert(st: TreeState, e: Entry): TreeState {
    TouchRoot(MaybeSplit(Placed(st, e), Touched(st, e.key)), true)
  }

  /** What an insertion leaves behind when it stops there. */
  ghost function Inserted(st: TreeState, e: Entry): TreeState {
    if InsertStatus(st, e) == DuplicateKey then Located(st, e.key) else AfterInsert(st, e)
  }

  lemma UndefinedIff(st: TreeState, e: Entry)
    ensures InsertStatus(st, e) == Undefined <==> InsertStatus(st, e) != DuplicateKey && RootDue(AfterInsert(st, e))
  {
    hide Located, AfterInsert, Has, RootDue;
  }

  lemma InsertedIs(st: TreeState, e: Entry)
    ensures InsertStatus(st, e) in {Ok, DuplicateKey, Undefined}
    ensures InsertStatus(st, e) == Ok ==> Inserted(st, e) == AfterInsert(st, e)
  {
    hide Located, AfterInsert, Has, RootDue;
  }

  /** The leaf's round of an insertion: it is collected, or its halves are. */
  ghost function LeafFixed(st: TreeState, i: nat): (st': TreeState)
    requires i < |st.leaves|
    ensures st'.leaves != []
  {
    if SplitDue(st.leaves[i].stat, |st.leaves[i].kvs|) then SplitStep(st, i) else CollectLeaf(st, i)
  }

  lemma PlacedInSteps(st: TreeState, e: Entry)
    ensures var i := Touched(st, e.key);
            LeafFixed(StatPut(EntryPut(Located(st, e.key), i, e), i, e), i) == MaybeSplit(Placed(st, e), i)
  {
    hide Emplace, AddStat, Located, SplitStep;
    var i, st1 := Touched(st, e.key), Located(st, e.key);
    var st2 := PutLeaf(st1, i, WithEntry(st1.leaves[i], e));
    assert StatPut(EntryPut(st1, i, e), i, e) == st2;
    assert Placed(st, e) == CollectLeaf(st2, i);
    if SplitDue(st2.leaves[i].stat, |st2.leaves[i].kvs|) { SplitOfCollected(st2, i); }
  }

  /** The leaf's round of a deletion. */
  ghost function LeafShrunk(st: TreeState, i: nat, key: Bytes): TreeState
    requires i < |st.leaves|
  {
    var st1 := KeyErased(st, i, key);
    if st1.leaves[i].kvs == [] then UnlinkStep(st1, i) else StatShrunk(st1, i, key)
  }

  ghost function RootShrunk(st: TreeState): TreeState {
    if st.leaves == [] then ResetRoot(st) else TouchRoot(st, false)
  }

  /** A leaf that was never saved cannot be re-read by a lookup. */
  ghost predicate LookupSaved(st: TreeState, key: Bytes) {
    Find(st.leaves, key) < |st.leaves| ==> st.leaves[Find(st.leaves, key)].id in st.nodes
  }

  ghost function DeleteStatus(st: TreeState, key: Bytes): Status {
    if LookupSaved(st, key) then Ok else StorageKvNotFound
  }

  ghost function AfterDelete(st: TreeState, key: Bytes): TreeState {
    var i, st1 := Find(st.leaves, key), AfterGet(st, key);
    if i == |st.leaves| || !LookupSaved(st, key) || !Has(st1.leaves[i].kvs, key) then st1
    else RootShrunk(LeafShrunk(st1, i, key))
  }

  ghost function AfterGet(st: TreeState, key: Bytes): (st': TreeState)
    ensures |st'.leaves| == |st.leaves|
    ensures Find(st.leaves, key) == |st.leaves| ==> st' == st
  {
    var i := Find(st.leaves, key);
    if i == |st.leaves| then st else LoadLeaf(st, i)
  }

  ghost function GetStatus(st: TreeState, key: Bytes): Status {
    var i := Find(st.leaves, key);
    if i == |st.leaves| || !LookupSaved(st, key) then StorageKvNotFound
    else if Has(AfterGet(st, key).leaves[i].kvs, key) then Ok else BptreeError
  }

  // ---- operations keep trees well-formed -----------------------------------

  lemma LocatedWf(st: TreeState, key: Bytes)
    requires WellFormed(st)
    ensures WellFormed(Located(st, key))
  {
    hide WellFormed;
    if st.leaves == [] { NewLeafWf(st); } else { LoadWf(st, Route(st.leaves, key)); }
  }

  lemma EntryPutWf(st: TreeState, i: nat, e: Entry)
    requires WellFormed(st) && i < |st.leaves| && |e.key| <= st.keyLimit && |e.value| < UINT32_RANGE
    ensures WellFormed(EntryPut(st, i, e))
    ensures WellFormed(StatPut(EntryPut(st, i, e), i, e))
  {
    hide LeafWf, WellFormed, Emplace, AddStat;
    var l := st.leaves[i];
    assert LeafWf(st, l) by { WfLeaf(st, i); }
    WithEntryWf(st, l, e);
    PutWf(st, i, EntryPut(st, i, e).leaves[i]);
    PutWf(st, i, WithEntry(l, e));
    assert StatPut(EntryPut(st, i, e), i, e) == PutLeaf(st, i, WithEntry(l, e));
  }

  lemma WfLeaf(st: TreeState, i: nat)
    requires WellFormed(st) && i < |st.leaves|
    ensures LeafWf(st, st.leaves[i])
  {
  }

  lemma SameLimitLocated(st: TreeState, key: Bytes)
    ensures var st' := Located(st, key);
            st'.rootId == st.rootId && st'.keyLimit == st.keyLimit && st'.nodes == st.nodes && st'.unsaved == st.unsaved
  {
    hide Route, Reread;
  }

  lemma PlacedWf(st: TreeState, e: Entry)
    requires WellFormed(st) && |e.key| <= st.keyLimit && |e.value| < UINT32_RANGE
    ensures WellFormed(Placed(st, e)) && WellFormed(MaybeSplit(Placed(st, e), Touched(st, e.key)))
  {
    hide WellFormed, Touched, InsertStep, Located, SplitStep;
    LocatedWf(st, e.key);
    SameLimitLocated(st, e.key);
    InsertWf(Located(st, e.key), Touched(st, e.key), e);
    var st1, i := Placed(st, e), Touched(st, e.key);
    if SplitDue(st1.leaves[i].stat, |st1.leaves[i].kvs|) { SplitWf(st1, i); }
  }

  /** An insertion may always follow, and exactly when the root is due for a split after it. */
  lemma InsertedWf(st: TreeState, e: Entry)
    requires WellFormed(st) && |e.key| <= st.keyLimit && |e.value| < UINT32_RANGE
    ensures WellFormed(AfterInsert(st, e))
    ensures var ls := AfterInsert(st, e).leaves;
            && ls != []
            && (RootDue(AfterInsert(st, e)) <==>
                  |ls| >= 3 && |ls[0].stat.minKey| + |ls[|ls| - 1].stat.maxKey| > MAX_NODE_SIZE)
  {
    hide WellFormed, Placed, RootDue, MaybeSplit, Touched;
    PlacedWf(st, e);
    RootDueIff(MaybeSplit(Placed(st, e), Touched(st, e.key)), true);
  }

  lemma GotWf(st: TreeState, key: Bytes)
    requires WellFormed(st)
    ensures WellFormed(AfterGet(st, key))
  {
    hide WellFormed;
    if Find(st.leaves, key) < |st.leaves| { LoadWf(st, Find(st.leaves, key)); }
  }

  lemma ShrunkWf(st: TreeState, i: nat, key: Bytes)
    requires WellFormed(st) && i < |st.leaves|
    ensures WellFormed(KeyErased(st, i, key)) && WellFormed(LeafShrunk(st, i, key))
    ensures WellFormed(RootShrunk(LeafShrunk(st, i, key)))
  {
    hide WellFormed, KeyErased, StatShrunk, UnlinkStep, RootDue;
    KeyErasedWf(st, i, key);
    var st1 := KeyErased(st, i, key);
    if st1.leaves[i].kvs == [] { UnlinkWf(st1, i); } else { StatShrunkWf(st1, i, key); }
    var st2 := LeafShrunk(st, i, key);
    if st2.leaves == [] { ResetRootWf(st2); } else { RootDueIff(st2, false); }
  }

  lemma DeletedWf(st: TreeState, key: Bytes)
    requires WellFormed(st)
    ensures WellFormed(AfterDelete(st, key))
  {
    hide WellFormed, Find, LeafShrunk, RootShrunk, LookupSaved;
    GotWf(st, key);
    if Find(st.leaves, key) < |st.leaves| { ShrunkWf(AfterGet(st, key), Find(st.leaves, key), key); }
  }

  // ---- routing -------------------------------------------------------------

  /** The routed leaf is the only one that can hold the key. */
  lemma RouteFits(ls: seq<LeafState>, key: Bytes)
    requires ForestOk(Views(ls)) && ls != []
    ensures Fits(Views(ls), Route(ls, key), key)
  {
    hide DataCmp, ToMap, Sorted;
    var vs, i := Views(ls), Route(ls, key);
    assert LeafOk(vs[i]);
    MinMax(vs[i]);
    if i + 1 < |ls| { assert Less(vs[i].maxKey, vs[i + 1].minKey); }
  }

  /** A lookup finds a leaf exactly when a range holds the key, and then the key is in
      the tree exactly when it is in that leaf. */
  lemma FindFits(ls: seq<LeafState>, key: Bytes)
    requires ForestOk(Views(ls))
    ensures Find(ls, key) == |ls| ==> key !in Contents(Views(ls))
    ensures Find(ls, key) < |ls| ==> Fits(Views(ls), Find(ls, key), key)
  {
    hide DataCmp, ToMap, Sorted, LeafOk, Contents;
    var vs, i := Views(ls), FirstMax(ls, key);
    if Find(ls, key) < |ls| {
      assert Route(ls, key) == i;
      RouteFits(ls, key);
    } else {
      forall j | 0 <= j < |vs| ensures !(LessEq(vs[j].minKey, key) && LessEq(key, vs[j].maxKey)) {
        if i < j {
          MinMax(vs[i]);
          MinMax(vs[j]);
          assert Less(vs[i].maxKey, vs[j].minKey);
        }
      }
      GapLookup(vs, key);
    }
  }

  ghost predicate Spans(l: LeafState, key: Bytes) { LessEq(l.stat.minKey, key) && LessEq(key, l.stat.maxKey) }

  /** The search finds exactly the leaf whose range holds the key. */
  lemma FindIs(ls: seq<LeafState>, key: Bytes, j: nat)
    requires ForestOk(Views(ls)) && j < |ls|
    ensures Find(ls, key) == j <==> Spans(ls[j], key)
  {
    hide DataCmp, ToMap, Sorted;
    var vs, i := Views(ls), FirstMax(ls, key);
    if Spans(ls[j], key) {
      assert i <= j;
      MinMax(vs[j]);
      assert i < j ==> Less(vs[i].maxKey, vs[j].minKey);
    }
  }

  // ---- what an operation needs of the leaf it re-reads ----------------------

  /** Re-reading the leaf an insertion goes to changes nothing. */
  ghost predicate InsertReady(st: TreeState, key: Bytes) {
    st.leaves != [] ==> LeafSettled(st, st.leaves[Route(st.leaves, key)])
  }

  /** Re-reading the leaf that holds the key, if any, changes nothing. */
  ghost predicate LookupReady(st: TreeState, key: Bytes) {
    Find(st.leaves, key) < |st.leaves| ==> LeafSettled(st, st.leaves[Find(st.leaves, key)])
  }

  lemma SettledIsReady(st: TreeState, key: Bytes)
    requires Settled(st)
    ensures InsertReady(st, key) && LookupReady(st, key)
    ensures (forall i :: 0 <= i < |st.leaves| ==> st.leaves[i].id in st.nodes) ==> LookupSaved(st, key)
  {
  }

  // ---- insertion -----------------------------------------------------------

  /** The routed leaf reports a duplicate exactly when the key is in the tree. */
  lemma RoutedDuplicate(st: TreeState, key: Bytes)
    requires LeavesInv(st) && st.leaves != []
    ensures Has(st.leaves[Route(st.leaves, key)].entries, key) <==> key in Model(st)
  {
    hide DataCmp, ToMap, Flatten, Sorted, WellFormed, Backed, Fits, ForestOk, Has;
    var i := Route(st.leaves, key);
    RouteFits(st.leaves, key);
    RoutedLookup(Views(st.leaves), i, key);
    LoadedLeaf(st, i);
    HasIffKey(st.leaves[i].entries, key);
  }

  /** What the routed leaf holds after it was re-read decides on duplicates. */
  lemma InsertStatusIs(st: TreeState, e: Entry)
    requires Intact(st) && InsertReady(st, e.key)
    ensures InsertStatus(st, e) == DuplicateKey <==> e.key in Model(st)
    ensures InsertStatus(st, e) in {Ok, DuplicateKey, Undefined}
    ensures e.key in Model(st) ==>
              var st' := Located(st, e.key); Intact(st') && Model(st') == Model(st) && (Fresh(st) ==> Fresh(st'))
  {
    hide LeavesInv, RootSynced, Settled, LeafSettled, Contents, Has, Route, LoadLeaf, AfterInsert, RootDue, Fresh;
    if st.leaves == [] {
      NothingThere(e.key);
    } else {
      LoadKeeps(st, Route(st.leaves, e.key));
      RoutedDuplicate(st, e.key);
    }
  }

  lemma NothingThere(key: Bytes)
    ensures !Has([], key) && key !in Contents(Views([]))
  {
  }

  /** A key remembered as written is held, so the error of the second container never occurs. */
  lemma WrittenIsHeld(st: TreeState, i: nat, key: Bytes)
    requires WellFormed(st) && i < |st.leaves|
    ensures key in st.leaves[i].written ==> Has(st.leaves[i].kvs, key)
  {
    hide DataCmp, ToMap, Sized;
    assert LeafWf(st, st.leaves[i]);
    HasIffKey(st.leaves[i].kvs, key);
  }

  /** Storage has nothing under the id of the first leaf of a tree. */
  ghost predicate NewIdUnknown(st: TreeState) { st.leaves == [] ==> st.maxId + 1 !in st.nodes }

  lemma PlacedKeeps(st: TreeState, e: Entry)
    requires LeavesInv(st) && e.key !in Model(st) && InsertReady(st, e.key)
    requires |e.key| <= st.keyLimit && |e.value| < UINT32_RANGE
    ensures LeavesInv(Placed(st, e)) && (Fresh(st) ==> Fresh(Placed(st, e)))
    ensures Model(Placed(st, e)) == Model(st)[e.key := e.value]
    ensures Settled(st) && NewIdUnknown(st) ==> Settled(Placed(st, e))
    ensures Placed(st, e).leaves[Touched(st, e.key)].kvs == Placed(st, e).leaves[Touched(st, e.key)].entries
    ensures st.leaves != [] && IdFree(st) ==> IdFree(Placed(st, e))
  {
    hide LeavesInv, Settled, LeafSettled, Contents, ForestOk, Fits, LoadLeaf, InsertStep, Fresh;
    if st.leaves == [] {
      FirstKeeps(st, e);
      FirstIsAlone(e);
      FirstSettled(st, e);
    } else {
      var i := Route(st.leaves, e.key);
      LoadKeeps(st, i);
      RouteAbsent(st, e.key);
      InsertKeeps(LoadLeaf(st, i), i, e);
      InsertSettled(LoadLeaf(st, i), i, e);
      SameIds(st, LoadLeaf(st, i), i, e);
    }
  }

  lemma FirstSettled(st: TreeState, e: Entry)
    requires st.leaves == []
    ensures st.maxId + 1 !in st.nodes ==> Settled(InsertStep(NewLeaf(st), 0, e))
  {
    hide Emplace, AddStat;
  }

  lemma SameIds(st: TreeState, st1: TreeState, i: nat, e: Entry)
    requires i < |st.leaves| && st1 == LoadLeaf(st, i)
    ensures IdFree(st) ==> IdFree(InsertStep(st1, i, e))
  {
    hide Reread, Emplace, AddStat;
  }

  lemma FirstIsAlone(e: Entry)
    ensures map[][e.key := e.value] == map[e.key := e.value]
  {
  }

  lemma RouteAbsent(st: TreeState, key: Bytes)
    requires LeavesInv(st) && st.leaves != [] && key !in Model(st)
    ensures key !in ToMap(st.leaves[Route(st.leaves, key)].entries)
    ensures Fits(Views(st.leaves), Route(st.leaves, key), key)
  {
    hide DataCmp, ToMap, Flatten, WellFormed, Backed, Fits, ForestOk;
    RouteFits(st.leaves, key);
    RoutedLookup(Views(st.leaves), Route(st.leaves, key), key);
  }

  /** Without a split, re-reading stays harmless after an insertion. */
  lemma InsertSettled(st: TreeState, i: nat, e: Entry)
    requires LeavesInv(st) && i < |st.leaves| && st.leaves[i].kvs == st.leaves[i].entries
    ensures Settled(st) ==> Settled(InsertStep(st, i, e))
  {
    hide DataCmp, ToMap, ForestOk, Sized, RootInv, Emplace;
    LoadedLeaf(st, i);
    EmplaceSpec(st.leaves[i].entries, e);
    var st' := InsertStep(st, i, e);
    if Settled(st) {
      forall j | 0 <= j < |st'.leaves| ensures LeafSettled(st', st'.leaves[j]) {
        assert LeafSettled(st, st.leaves[j]) && LeafInv(st, st.leaves[j]);
      }
    }
  }

  /** If the insertion splits a leaf, no leaf has the id it gives to the right half. */
  ghost predicate TakesFreeId(st: TreeState, e: Entry) {
    var l := Placed(st, e).leaves[Touched(st, e.key)];
    SplitDue(l.stat, |l.kvs|) ==> st.leaves != [] && IdFree(st)
  }

  lemma FreshIsFree(st: TreeState, e: Entry)
    requires Fresh(st)
    ensures TakesFreeId(st, e) && st.maxId + 1 !in st.nodes
  {
    hide Route, Reread;
    if st.leaves == [] { EmplaceIntoEmpty(e); }
  }

  lemma EmplaceIntoEmpty(e: Entry)
    ensures Emplace([], e) == [e]
  {
    assert LowerBound([], e.key) == 0;
  }

  /** Inserting an absent key adds exactly that entry, keeps the invariant, and, unless
      a leaf was split, leaves the tree ready for the next update without a save. */
  lemma InsertMeaning(st: TreeState, e: Entry)
    requires Intact(st) && e.key !in Model(st) && InsertReady(st, e.key) && TakesFreeId(st, e)
    requires |e.key| <= st.keyLimit && |e.value| < UINT32_RANGE
    ensures Intact(AfterInsert(st, e)) && (Fresh(st) ==> Fresh(AfterInsert(st, e)))
    ensures Model(AfterInsert(st, e)) == Model(st)[e.key := e.value]
    ensures Settled(st) && NewIdUnknown(st) && |AfterInsert(st, e).leaves| == |Placed(st, e).leaves| ==>
              Settled(AfterInsert(st, e))
  {
    hide LeavesInv, RootSynced, Settled, Contents, InsertReady, ForestOk, IdFree, Placed, SplitStep, Fresh;
    PlacedKeeps(st, e);
    var st1, i := Placed(st, e), Touched(st, e.key);
    if SplitDue(st1.leaves[i].stat, |st1.leaves[i].kvs|) {
      SplitKeeps(st1, i);
    }
    TouchRootKeeps(MaybeSplit(st1, i), true);
  }

  // ---- lookup and deletion -------------------------------------------------

  lemma GetMeaning(st: TreeState, key: Bytes)
    requires Intact(st) && LookupReady(st, key)
    ensures Intact(AfterGet(st, key)) && Model(AfterGet(st, key)) == Model(st)
    ensures Fresh(st) ==> Fresh(AfterGet(st, key))
    ensures Settled(st) ==> Settled(AfterGet(st, key))
    ensures var i, st' := Find(st.leaves, key), AfterGet(st, key);
            if i == |st.leaves| then key !in Model(st)
            else && LeavesInv(st') && st'.leaves[i].kvs == st'.leaves[i].entries == st.leaves[i].entries
                 && (Has(st'.leaves[i].kvs, key) <==> key in Model(st))
                 && (key in Model(st) ==> Model(st)[key] == st'.leaves[i].kvs[LowerBound(st'.leaves[i].kvs, key)].value)
  {
    hide DataCmp, ToMap, Flatten, Sorted, WellFormed, Backed, Fits, ForestOk, Has, Settled, LeafSettled, RootSynced,
         LoadLeaf, Find;
    var i := Find(st.leaves, key);
    FindFits(st.leaves, key);
    if i < |st.leaves| {
      LoadKeeps(st, i);
      RoutedLookup(Views(st.leaves), i, key);
      LoadedLeaf(st, i);
      HasIffKey(st.leaves[i].entries, key);
    }
  }

  /** A key of the tree is in the range of its leaf. */
  lemma RangeFinds(st: TreeState, key: Bytes)
    requires Intact(st) && key in Model(st)
    ensures exists i :: 0 <= i < |st.leaves| && Spans(st.leaves[i], key)
  {
    hide LeavesInv, RootSynced, Contents, Fits;
    IntactParts(st);
    FindFits(st.leaves, key);
    var i := Find(st.leaves, key);
    assert Spans(st.leaves[i], key);
  }

  /** Looking up an absent key gives one error when a leaf has the key in its range, and another
      when none has. */
  lemma GetStatusIs(st: TreeState, key: Bytes)
    requires Intact(st) && LookupReady(st, key) && LookupSaved(st, key)
    ensures GetStatus(st, key) == if key in Model(st) then Ok
                                  else if exists i :: 0 <= i < |st.leaves| && Spans(st.leaves[i], key) then BptreeError
                                  else StorageKvNotFound
  {
    hide LeavesInv, RootSynced, ForestOk, Contents, Has, AfterGet, Spans, Find;
    GetMeaning(st, key);
    IntactParts(st);
    forall i | 0 <= i < |st.leaves| ensures Find(st.leaves, key) == i <==> Spans(st.leaves[i], key) {
      FindIs(st.leaves, key, i);
    }
  }

  /** Deleting removes exactly the key, present or not. */
  lemma DeleteMeaning(st: TreeState, key: Bytes)
    requires Intact(st) && LookupReady(st, key) && LookupSaved(st, key)
    ensures Intact(AfterDelete(st, key)) && (Fresh(st) ==> Fresh(AfterDelete(st, key)))
    ensures Model(AfterDelete(st, key)) == Model(st) - {key}
  {
    hide DataCmp, ToMap, Flatten, Sorted, LeavesInv, RootSynced, Fits, ForestOk, Has, Settled, Contents, Erase, LowerBound,
         LookupReady, LookupSaved, AfterGet, LeafShrunk, RootShrunk, Find;
    GetMeaning(st, key);
    if key !in Model(st) {
      NothingRemoved(Model(st), key);
    } else {
      DeletePresent(AfterGet(st, key), Find(st.leaves, key), key);
    }
  }

  lemma NothingRemoved(m: map<Bytes, Bytes>, key: Bytes)
    requires key !in m
    ensures m - {key} == m
  {
  }

  lemma DeletePresent(st: TreeState, i: nat, key: Bytes)
    requires LeavesInv(st) && i < |st.leaves| && st.leaves[i].kvs == st.leaves[i].entries
    requires Has(st.leaves[i].kvs, key)
    ensures LeavesInv(LeafShrunk(st, i, key)) && Intact(RootShrunk(LeafShrunk(st, i, key)))
    ensures Fresh(st) ==> Fresh(RootShrunk(LeafShrunk(st, i, key)))
    ensures Model(RootShrunk(LeafShrunk(st, i, key))) == Model(st) - {key}
    ensures |st.leaves[i].entries| == 1 ==> LeafShrunk(st, i, key).leaves == st.leaves[..i] + st.leaves[i + 1..]
  {
    hide DataCmp, ToMap, Flatten, Sorted, LeavesInv, RootSynced, ForestOk, Contents, LowerBound, LeafInv, Erase, Has,
         UnlinkStep, StatShrunk;
    LoadedLeaf(st, i);
    var es, st1 := st.leaves[i].entries, KeyErased(st, i, key);
    HasIffKey(es, key);
    if |es| == 1 {
      OnlyEntry(es, key);
      UnlinkKeeps(st, i, key);
      var st2 := UnlinkStep(st1, i);
      if st2.leaves == [] { ResetRootKeeps(st2); } else { TouchRootKeeps(st2, false); }
    } else {
      SomeEntry(es, key);
      EraseKeeps(st, i, key);
      TouchRootKeeps(StatShrunk(st1, i, key), false);
    }
  }

  lemma OnlyEntry(es: seq<Entry>, key: Bytes)
    requires |es| == 1 && Has(es, key)
    ensures es[0].key == key && Erase(es, key) == []
  {
  }

  lemma SomeEntry(es: seq<Entry>, key: Bytes)
    requires Has(es, key)
    ensures |es| >= 1 && |Erase(es, key)| == |es| - 1
  {
  }
}
