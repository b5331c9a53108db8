/** Statements that delete keys on a saved tree: when the next key finds its leaf as it should be,
    and exactly when two keys go as from a finite map. Re-reading a leaf brings back every key
    deleted from it since the save. */
module UnsavedKeys {
  import opened DataOrder
  import opened OrderedMap
  import opened Forest
  import opened TreeStates
  import opened TreeOps
  import opened Statements
  import opened UnsavedUpdates
  import opened UnsavedRows

  // ---- what one deletion leaves behind ---------------------------------------

  /** `st'` is `st` without leaf `i`. */
  ghost predicate WithoutLeaf(st: TreeState, i: nat, st': TreeState)
    requires i < |st.leaves|
  {
    && st'.leaves == st.leaves[..i] + st.leaves[i + 1..]
    && st.unsaved - {st.leaves[i].id} <= st'.unsaved <= st.unsaved + {st.rootId}
    && st'.nodes == st.nodes && st'.rootId == st.rootId
  }

  /** `st'` is `st` with the key out of leaf `i`, which awaits a save. */
  ghost predicate WithLeafShrunk(st: TreeState, i: nat, key: Bytes, st': TreeState)
    requires i < |st.leaves|
  {
    var l := st.leaves[i];
    && |st'.leaves| == |st.leaves| && st'.leaves[i].id == l.id
    && st'.leaves[i].kvs == st'.leaves[i].entries == Erase(l.entries, key)
    && (forall j :: 0 <= j < |st.leaves| && j != i ==> st'.leaves[j] == st.leaves[j])
    && st'.unsaved == st.unsaved + {l.id} + {st.rootId} && st'.nodes == st.nodes && st'.rootId == st.rootId
  }

  lemma DeleteShape(st: TreeState, key: Bytes)
    requires Intact(st) && LookupReady(st, key) && LookupSaved(st, key) && key in Model(st)
    ensures var i := Find(st.leaves, key);
            && i < |st.leaves| && key in ToMap(st.leaves[i].entries)
            && if |st.leaves[i].entries| == 1 then WithoutLeaf(st, i, AfterDelete(st, key))
               else |st.leaves[i].entries| >= 2 && WithLeafShrunk(st, i, key, AfterDelete(st, key))
  {
    hide LeavesInv, RootSynced, ForestOk, Contents, Has, Erase, LeafSettled, LookupSaved, Find, ToMap, LoadLeaf,
         LeafShrunk, RootShrunk;
    GetMeaning(st, key);
    var i, st1 := Find(st.leaves, key), AfterGet(st, key);
    LoadKeeps(st, i);
    LoadedLeaf(st, i);
    SomeEntry(st.leaves[i].entries, key);
    HasIffKey(st.leaves[i].entries, key);
    if |st.leaves[i].entries| == 1 {
      DeletePresent(st1, i, key);
      LeafGone(st, st1, i, key);
    } else {
      IntactParts(st);
      LeafSmaller(st, st1, i, key);
    }
  }

  lemma LeafGone(st: TreeState, st1: TreeState, i: nat, key: Bytes)
    requires i < |st.leaves| && st1 == PutLeaf(st, i, st.leaves[i].(kvs := st.leaves[i].entries))
    requires |st.leaves[i].entries| == 1 && Has(st.leaves[i].entries, key)
    requires LeafShrunk(st1, i, key).leaves == st1.leaves[..i] + st1.leaves[i + 1..]
    ensures WithoutLeaf(st, i, RootShrunk(LeafShrunk(st1, i, key)))
  {
    hide Has, Erase, RangeStat, FirstMax;
    OnlyEntry(st.leaves[i].entries, key);
    assert st1.leaves[..i] + st1.leaves[i + 1..] == st.leaves[..i] + st.leaves[i + 1..];
  }

  lemma LeafSmaller(st: TreeState, st1: TreeState, i: nat, key: Bytes)
    requires i < |st.leaves| && st1 == PutLeaf(st, i, st.leaves[i].(kvs := st.leaves[i].entries))
    requires DistinctIds(st.leaves) && Erase(st.leaves[i].entries, key) != []
    ensures WithLeafShrunk(st, i, key, RootShrunk(LeafShrunk(st1, i, key)))
  {
    hide Erase, RangeStat, DelStat, StatShrunk;
    StatShrunkIs(KeyErased(st1, i, key), i, key);
  }

  lemma StatShrunkIs(st: TreeState, i: nat, key: Bytes)
    requires DistinctIds(st.leaves) && i < |st.leaves| && st.leaves[i].kvs != []
    ensures var l, st' := st.leaves[i], StatShrunk(st, i, key);
            && st'.leaves == st.leaves[i := l.(stat := DelStat(l.stat, l.kvs, key), listed := true)]
            && st'.unsaved == st.unsaved + {l.id} && st'.nodes == st.nodes && st'.rootId == st.rootId
  {
    hide DelStat, Listed;
    ListedAlone(st.leaves[i := st.leaves[i].(stat := DelStat(st.leaves[i].stat, st.leaves[i].kvs, key))], i);
  }

  // ---- when the next deletion is ready ---------------------------------------

  /** After a deletion from a saved tree, the next lookup or deletion finds its leaf settled
      exactly when the key was absent, its leaf left the tree, or the next key goes elsewhere. */
  lemma DeleteReadyIff(st: TreeState, k1: Bytes, k2: Bytes)
    requires Intact(st) && st.unsaved == {}
    ensures var i, st' := Find(st.leaves, k1), AfterDelete(st, k1);
            LookupReady(st', k2) <==>
              k1 !in Model(st) || (i < |st.leaves| && |st.leaves[i].entries| == 1) || Find(st'.leaves, k2) != i
  {
    hide Intact, Model, Find, AfterDelete, LeafSettled, ToMap, WithoutLeaf, WithLeafShrunk, LookupSaved;
    var i, st' := Find(st.leaves, k1), AfterDelete(st, k1);
    NothingUnsaved(st);
    SettledIsReady(st, k1);
    SavedLeaves(st);
    if k1 !in Model(st) {
      AbsentUnsavesNothing(st, k1);
      NothingUnsaved(st');
      SettledIsReady(st', k2);
    } else {
      DeleteShape(st, k1);
      if |st.leaves[i].entries| == 1 {
        GoneLeavesSettled(st, i, st');
        SettledIsReady(st', k2);
      } else {
        ShrunkUnsettled(st, i, k1, st');
      }
    }
  }

  lemma SavedLeaves(st: TreeState)
    requires Intact(st) && st.unsaved == {}
    ensures forall i :: 0 <= i < |st.leaves| ==>
              st.leaves[i].id in st.nodes && st.nodes[st.leaves[i].id] == SavedLeaf(st.leaves[i].entries)
    ensures forall key :: LookupSaved(st, key)
  {
    hide LeafWf, ForestOk, Find;
    forall i | 0 <= i < |st.leaves|
      ensures st.leaves[i].id in st.nodes && st.nodes[st.leaves[i].id] == SavedLeaf(st.leaves[i].entries)
    {
      assert LeafBacked(st, st.leaves[i]);
    }
  }

  lemma AbsentUnsavesNothing(st: TreeState, key: Bytes)
    requires Intact(st) && LookupReady(st, key) && key !in Model(st)
    ensures AfterDelete(st, key) == AfterGet(st, key)
    ensures AfterDelete(st, key).unsaved == st.unsaved && AfterDelete(st, key).nodes == st.nodes
    ensures |AfterDelete(st, key).leaves| == |st.leaves|
    ensures forall j :: 0 <= j < |st.leaves| ==>
              var l := AfterDelete(st, key).leaves[j]; l.id == st.leaves[j].id && l.stat == st.leaves[j].stat
  {
    hide LeavesInv, RootSynced, Contents, Find, LeafSettled, LookupSaved, Has;
    GetMeaning(st, key);
  }

  lemma GoneLeavesSettled(st: TreeState, i: nat, st': TreeState)
    requires Intact(st) && st.unsaved == {} && i < |st.leaves| && WithoutLeaf(st, i, st')
    ensures Settled(st')
  {
    hide ForestOk, Sorted, Sized, Keys, ToMap;
    forall j | 0 <= j < |st'.leaves| ensures LeafSettled(st', st'.leaves[j]) {
      var k := if j < i then j else j + 1;
      assert st'.leaves[j] == st.leaves[k] && LeafWf(st, st.leaves[k]);
    }
  }

  lemma ShrunkUnsettled(st: TreeState, i: nat, key: Bytes, st': TreeState)
    requires Intact(st) && st.unsaved == {} && i < |st.leaves| && key in ToMap(st.leaves[i].entries)
    requires WithLeafShrunk(st, i, key, st')
    ensures i < |st'.leaves| && forall j :: 0 <= j < |st'.leaves| ==> (LeafSettled(st', st'.leaves[j]) <==> j != i)
  {
    hide ForestOk, Sized, ToMap, DataCmp, Erase;
    SavedLeaves(st);
    LoadedLeaf(st, i);
    EraseSpec(st.leaves[i].entries, key);
    forall j | 0 <= j < |st'.leaves| ensures LeafSettled(st', st'.leaves[j]) <==> j != i {
      assert LeafWf(st, st.leaves[j]);
      assert j != i ==> st.leaves[j].id != st.leaves[i].id;
    }
  }

  // ---- keys of different leaves ------------------------------------------------

  /** No key that was deleted shares its leaf with a later one. */
  ghost predicate Apart(st: TreeState, keys: seq<Bytes>) {
    forall a, b :: 0 <= a < b < |keys| && keys[a] in Model(st) ==> Find(st.leaves, keys[a]) != Find(st.leaves, keys[b])
  }

  /** The id of the leaf a lookup goes to; the root's when there is none. */
  ghost function FoundId(st: TreeState, key: Bytes): nat {
    if Find(st.leaves, key) < |st.leaves| then st.leaves[Find(st.leaves, key)].id else st.rootId
  }

  lemma FoundIdIs(st: TreeState, key: Bytes, id: nat)
    requires Intact(st)
    ensures FoundId(st, key) == id <==>
              if id == st.rootId then forall j :: 0 <= j < |st.leaves| ==> !Spans(st.leaves[j], key)
              else exists j :: 0 <= j < |st.leaves| && st.leaves[j].id == id && Spans(st.leaves[j], key)
  {
    hide DataCmp, Find, ForestOk, Spans, RootSynced, Sorted, Sized, ToMap;
    forall j | 0 <= j < |st.leaves|
      ensures (Find(st.leaves, key) == j <==> Spans(st.leaves[j], key)) && st.leaves[j].id != st.rootId
    {
      FindIs(st.leaves, key, j);
      OwnId(st, st.leaves[j]);
    }
  }

  /** Shrinking a leaf does not widen its range. */
  lemma ShrunkRange(l: LeafState, l': LeafState, removed: Bytes, key: Bytes)
    requires LeafOk(View(l)) && LeafOk(View(l')) && l'.entries == Erase(l.entries, removed)
    requires Spans(l', key)
    ensures Spans(l, key)
  {
    hide DataCmp, ToMap, Erase;
    EraseSpec(l.entries, removed);
    var n := |l'.entries| - 1;
    MapAt(l'.entries, 0);
    MapAt(l'.entries, n);
    LeafRange(View(l), l'.entries[0].key);
    LeafRange(View(l), l'.entries[n].key);
    Between(l.stat.minKey, l'.stat.minKey, key);
    Between(key, l'.stat.maxKey, l.stat.maxKey);
  }

  lemma Between(a: Bytes, b: Bytes, c: Bytes)
    requires LessEq(a, b) && LessEq(b, c)
    ensures LessEq(a, c)
  {
  }

  /** A deletion does not change where the keys of other leaves are found. */
  lemma FoundElsewhere(st: TreeState, k0: Bytes, k: Bytes)
    requires Intact(st) && LookupReady(st, k0) && LookupSaved(st, k0) && k0 in Model(st)
    requires FoundId(st, k) != FoundId(st, k0)
    ensures FoundId(AfterDelete(st, k0), k) == FoundId(st, k)
  {
    hide Intact, Model, Find, AfterDelete, LookupReady, LookupSaved, ToMap, FoundId, Spans, WithoutLeaf, WithLeafShrunk;
    var i, st', id := Find(st.leaves, k0), AfterDelete(st, k0), FoundId(st, k);
    DeleteShape(st, k0);
    DeleteMeaning(st, k0);
    FoundIdIs(st, k, id);
    FoundIdIs(st', k, id);
    assert FoundId(st, k0) == st.leaves[i].id by { FoundIdAt(st, k0); }
    if |st.leaves[i].entries| == 1 {
      RangesWithout(st, i, st', k, id);
    } else {
      RangesShrunk(st, i, k0, st', k, id);
    }
  }

  lemma FoundIdAt(st: TreeState, key: Bytes)
    requires Find(st.leaves, key) < |st.leaves|
    ensures FoundId(st, key) == st.leaves[Find(st.leaves, key)].id
  {
  }

  ghost predicate HasRange(ls: seq<LeafState>, key: Bytes, id: nat) {
    exists j :: 0 <= j < |ls| && ls[j].id == id && Spans(ls[j], key)
  }

  ghost predicate NoRange(ls: seq<LeafState>, key: Bytes) {
    forall j :: 0 <= j < |ls| ==> !Spans(ls[j], key)
  }

  lemma RangesWithout(st: TreeState, i: nat, st': TreeState, key: Bytes, id: nat)
    requires i < |st.leaves| && WithoutLeaf(st, i, st') && id != st.leaves[i].id
    ensures st'.rootId == st.rootId
    ensures NoRange(st.leaves, key) ==> NoRange(st'.leaves, key)
    ensures HasRange(st.leaves, key, id) ==> HasRange(st'.leaves, key, id)
  {
    hide Spans;
    forall j | 0 <= j < |st'.leaves| ensures st'.leaves[j] == st.leaves[if j < i then j else j + 1] {
    }
    if HasRange(st.leaves, key, id) {
      var j :| 0 <= j < |st.leaves| && st.leaves[j].id == id && Spans(st.leaves[j], key);
      assert st'.leaves[if j < i then j else j - 1] == st.leaves[j];
    }
  }

  lemma RangesShrunk(st: TreeState, i: nat, removed: Bytes, st': TreeState, key: Bytes, id: nat)
    requires Intact(st) && Intact(st') && i < |st.leaves| && WithLeafShrunk(st, i, removed, st') && id != st.leaves[i].id
    ensures st'.rootId == st.rootId
    ensures NoRange(st.leaves, key) ==> NoRange(st'.leaves, key)
    ensures HasRange(st.leaves, key, id) ==> HasRange(st'.leaves, key, id)
  {
    hide Spans, WellFormed, Backed, ForestOk, RootSynced, Erase;
    LoadedLeaf(st, i);
    LoadedLeaf(st', i);
    if Spans(st'.leaves[i], key) { ShrunkRange(st.leaves[i], st'.leaves[i], removed, key); }
    if HasRange(st.leaves, key, id) {
      var j :| 0 <= j < |st.leaves| && st.leaves[j].id == id && Spans(st.leaves[j], key);
      assert st'.leaves[j] == st.leaves[j];
    }
  }

  /** The same by ids, with none of the leaves awaiting a save: this is what deleting the first
      key keeps for the rest. */
  ghost predicate ApartById(st: TreeState, keys: seq<Bytes>) {
    && (forall a :: 0 <= a < |keys| ==> FoundId(st, keys[a]) == st.rootId || FoundId(st, keys[a]) !in st.unsaved)
    && (forall a, b :: 0 <= a < b < |keys| && keys[a] in Model(st) ==> FoundId(st, keys[a]) != FoundId(st, keys[b]))
  }

  lemma ApartIsReady(st: TreeState, key: Bytes)
    requires Intact(st) && (FoundId(st, key) == st.rootId || FoundId(st, key) !in st.unsaved)
    ensures LookupReady(st, key) && LookupSaved(st, key)
  {
    hide Find, ForestOk, Sorted, Sized, ToMap, RootSynced;
    var i := Find(st.leaves, key);
    if i < |st.leaves| { assert LeafWf(st, st.leaves[i]) && LeafBacked(st, st.leaves[i]); }
  }

  lemma AbsentKeepsApart(st: TreeState, keys: seq<Bytes>)
    requires Intact(st) && keys != [] && ApartById(st, keys) && keys[0] !in Model(st)
    ensures ApartById(AfterDelete(st, keys[0]), keys[1..])
  {
    hide Intact, Model, AfterDelete, AfterGet, FoundId, LookupReady, LookupSaved, Find;
    ApartIsReady(st, keys[0]);
    AbsentUnsavesNothing(st, keys[0]);
    GetMeaning(st, keys[0]);
    var st' := AfterDelete(st, keys[0]);
    SameRoot(st, keys[0]);
    forall a | 0 <= a < |keys| ensures FoundId(st', keys[a]) == FoundId(st, keys[a]) { SameFound(st, st', keys[a]); }
    ApartTail(st, st', keys);
  }

  lemma ApartTail(st: TreeState, st': TreeState, keys: seq<Bytes>)
    requires keys != [] && ApartById(st, keys)
    requires st'.rootId == st.rootId && st'.unsaved == st.unsaved && Model(st') == Model(st)
    requires forall a :: 0 <= a < |keys| ==> FoundId(st', keys[a]) == FoundId(st, keys[a])
    ensures ApartById(st', keys[1..])
  {
    hide FoundId, Model;
    assert forall a :: 0 <= a < |keys| - 1 ==> keys[1..][a] == keys[a + 1];
  }

  lemma SameFound(st: TreeState, st': TreeState, key: Bytes)
    requires |st'.leaves| == |st.leaves| && st'.rootId == st.rootId
    requires forall j :: 0 <= j < |st.leaves| ==>
               st'.leaves[j].id == st.leaves[j].id && st'.leaves[j].stat == st.leaves[j].stat
    ensures FoundId(st', key) == FoundId(st, key)
  {
    hide Find;
    SameStatsFind(st.leaves, st'.leaves, key);
  }

  lemma SameRoot(st: TreeState, key: Bytes)
    ensures AfterDelete(st, key).rootId == st.rootId
  {
    hide Find, LookupSaved, Has, Reread, Erase, DelStat, RangeStat, FirstMax;
  }

  lemma SameStatsFind(ls: seq<LeafState>, ms: seq<LeafState>, key: Bytes)
    requires |ls| == |ms| && forall j :: 0 <= j < |ls| ==> ls[j].stat == ms[j].stat
    ensures Find(ls, key) == Find(ms, key)
  {
    SameMaxima(ls, ms, key);
  }

  lemma PresentKeepsApart(st: TreeState, keys: seq<Bytes>)
    requires Intact(st) && keys != [] && ApartById(st, keys) && keys[0] in Model(st)
    ensures ApartById(AfterDelete(st, keys[0]), keys[1..])
  {
    hide Intact, Model, AfterDelete, Find, LookupReady, LookupSaved, FoundId, ToMap, WithoutLeaf, WithLeafShrunk;
    var k0 := keys[0];
    var st' := AfterDelete(st, k0);
    ApartIsReady(st, k0);
    DeleteMeaning(st, k0);
    DeleteShape(st, k0);
    FoundIdAt(st, k0);
    DeleteUnsaves(st, Find(st.leaves, k0), k0, st');
    SameRoot(st, k0);
    var rest := keys[1..];
    forall a | 0 <= a < |rest| ensures FoundId(st', rest[a]) == FoundId(st, rest[a]) != FoundId(st, k0) {
      assert rest[a] == keys[a + 1];
      FoundElsewhere(st, k0, rest[a]);
    }
  }

  lemma DeleteUnsaves(st: TreeState, i: nat, key: Bytes, st': TreeState)
    requires i < |st.leaves| && (WithoutLeaf(st, i, st') || WithLeafShrunk(st, i, key, st'))
    ensures st'.unsaved <= st.unsaved + {st.leaves[i].id} + {st.rootId}
  {
    hide Erase;
  }

  lemma {:induction false} ApartByIdReady(st: TreeState, keys: seq<Bytes>)
    requires Intact(st) && ApartById(st, keys)
    ensures KeysReady(st, keys)
    decreases |keys|
  {
    hide Intact, Model, AfterDelete, Find, LookupReady, LookupSaved, FoundId;
    if keys != [] {
      ApartIsReady(st, keys[0]);
      DeleteMeaning(st, keys[0]);
      if keys[0] in Model(st) { PresentKeepsApart(st, keys); } else { AbsentKeepsApart(st, keys); }
      ApartByIdReady(AfterDelete(st, keys[0]), keys[1..]);
    }
  }

  /** Keys none of which shares its leaf with an earlier one that is in the tree go out of a
      saved tree as from a finite map. */
  lemma ApartKeysReady(st: TreeState, keys: seq<Bytes>)
    requires Intact(st) && st.unsaved == {} && Apart(st, keys)
    ensures KeysReady(st, keys)
  {
    hide Intact, Model, Find, KeysReady;
    forall a, b | 0 <= a < b < |keys| && keys[a] in Model(st) ensures FoundId(st, keys[a]) != FoundId(st, keys[b]) {
      DifferentIds(st, keys[a], keys[b]);
    }
    ApartByIdReady(st, keys);
  }

  lemma DifferentIds(st: TreeState, a: Bytes, b: Bytes)
    requires Intact(st) && a in Model(st) && Find(st.leaves, a) != Find(st.leaves, b)
    ensures FoundId(st, a) != FoundId(st, b)
  {
    hide Find, ForestOk, Sorted, Sized, ToMap, RootSynced, Flatten;
    FindFits(st.leaves, a);
    assert LeafWf(st, st.leaves[Find(st.leaves, a)]);
  }

  lemma {:induction false} DeletedGone(m: map<Bytes, Bytes>, keys: seq<Bytes>, k: Bytes)
    ensures k !in m || k in keys ==> k !in DeletedKeys(m, keys)
    decreases |keys|
  {
    if keys != [] {
      assert k in keys ==> k == keys[0] || k in keys[1..];
      DeletedGone(m - {keys[0]}, keys[1..], k);
    }
  }

  lemma PresentInLeaf(st: TreeState, key: Bytes)
    requires Intact(st) && key in Model(st)
    ensures Find(st.leaves, key) < |st.leaves| && key in ToMap(st.leaves[Find(st.leaves, key)].entries)
  {
    hide WellFormed, Backed, ForestOk, ToMap, Flatten, Find, Fits, Contents;
    FindFits(st.leaves, key);
    RoutedLookup(Views(st.leaves), Find(st.leaves, key), key);
  }

  lemma NowhereFound(st: TreeState, key: Bytes)
    requires Find(st.leaves, key) == |st.leaves|
    ensures AfterDelete(st, key) == st && DeleteStatus(st, key) == Ok
  {
    hide Find;
  }

  lemma SavedLeafIs(st: TreeState, i: nat)
    requires Intact(st) && i < |st.leaves| && st.leaves[i].id !in st.unsaved
    ensures st.leaves[i].id in st.nodes && st.nodes[st.leaves[i].id] == SavedLeaf(st.leaves[i].entries)
  {
    hide WellFormed, ForestOk, RootSynced;
    assert LeafBacked(st, st.leaves[i]);
  }

  // ---- two keys ----------------------------------------------------------------

  /** Re-reading a leaf one key was deleted from restores all it held when it was saved. */
  lemma RereadRestores(st: TreeState, i: nat, es: seq<Entry>, key: Bytes)
    requires i < |st.leaves| && Sorted(es) && st.leaves[i].kvs == Erase(es, key)
    requires st.leaves[i].id in st.nodes && st.nodes[st.leaves[i].id] == SavedLeaf(es)
    ensures Reread(st, st.leaves[i]) == es
  {
    hide ToMap, DataCmp, Erase, EmplaceAll;
    EraseSpec(es, key);
    MergeSpec(Erase(es, key), es);
    assert ToMap(es) + (ToMap(es) - {key}) == ToMap(es);
    SortedUnique(EmplaceAll(Erase(es, key), es), es);
  }

  /** `st'` is `st` after the deletion of a key from leaf `i`, re-read to `es`. */
  ghost predicate ActedOn(st: TreeState, i: nat, es: seq<Entry>, key: Bytes, st': TreeState)
    requires i < |st.leaves| && Erase(es, key) != []
  {
    && |st'.leaves| == |st.leaves| && st'.nodes == st.nodes && st'.rootId == st.rootId
    && st'.leaves[i].id == st.leaves[i].id && st'.leaves[i].kvs == st'.leaves[i].entries == Erase(es, key)
    && (forall j :: 0 <= j < |st.leaves| && j != i ==> st'.leaves[j] == st.leaves[j])
    && if Has(es, key) then
         && st'.leaves[i].stat == DelStat(st.leaves[i].stat, Erase(es, key), key)
         && st'.unsaved == st.unsaved + {st.leaves[i].id} + {st.rootId}
       else st' == PutLeaf(st, i, st.leaves[i].(kvs := es, entries := es))
  }

  lemma RestoredDelete(st: TreeState, i: nat, es: seq<Entry>, key: Bytes)
    requires DistinctIds(st.leaves) && i == Find(st.leaves, key) < |st.leaves| && |es| >= 2
    requires Reread(st, st.leaves[i]) == es && st.leaves[i].id in st.nodes
    ensures Erase(es, key) != [] && DeleteStatus(st, key) == Ok && ActedOn(st, i, es, key, AfterDelete(st, key))
  {
    hide DataCmp, Erase, Find, Has, DelStat, RangeStat, Reread, StatShrunk, Listed;
    NotAllErased(es, key);
    StatShrunkIs(KeyErased(LoadLeaf(st, i), i, key), i, key);
  }

  /** The second of two deletions from one leaf, without a save between them, acts on what the
      leaf held when it was saved. */
  lemma SecondDelete(st: TreeState, st1: TreeState, i: nat, k1: Bytes, k2: Bytes)
    requires Intact(st) && st.unsaved == {} && i < |st.leaves| && |st.leaves[i].entries| >= 2
    requires WithLeafShrunk(st, i, k1, st1) && Intact(st1) && Find(st1.leaves, k2) == i
    ensures DeleteStatus(st1, k2) == Ok
    ensures var st2 := AfterDelete(st1, k2); var es := st.leaves[i].entries;
            && |st2.leaves| == |st.leaves| && st2.leaves[i].entries == Erase(es, k2)
            && (k1 == k2 ==> View(st2.leaves[i]) == View(st1.leaves[i]))
            && (forall j :: 0 <= j < |st.leaves| && j != i ==> st2.leaves[j] == st.leaves[j])
  {
    hide Intact, ToMap, DataCmp, Erase, Find, Has, Sorted, AfterDelete, DeleteStatus;
    SavedLeaves(st);
    IntactLeaf(st, i);
    IntactLeaf(st1, i);
    IntactParts(st1);
    RereadRestores(st1, i, st.leaves[i].entries, k1);
    RestoredDelete(st1, i, st.leaves[i].entries, k2);
    if k1 == k2 { OuterKeysLeft(st1.leaves[i], st.leaves[i].entries, k1); }
  }

  /** Erasing a key that is gone does not touch the range. */
  lemma OuterKeysLeft(l: LeafState, es: seq<Entry>, key: Bytes)
    requires LeafOk(View(l)) && l.entries == Erase(es, key) && Sorted(es)
    ensures var s := DelStat(l.stat, l.entries, key); s.minKey == l.stat.minKey && s.maxKey == l.stat.maxKey
  {
    hide DataCmp, ToMap, Erase, Sorted;
    EraseSpec(es, key);
    MapAt(l.entries, 0);
    MapAt(l.entries, |l.entries| - 1);
  }

  lemma IntactLeaf(st: TreeState, i: nat)
    requires Intact(st) && i < |st.leaves|
    ensures LeafOk(View(st.leaves[i])) && Sorted(st.leaves[i].entries)
  {
    LoadedLeaf(st, i);
  }

  lemma NotAllErased(es: seq<Entry>, key: Bytes)
    requires |es| >= 2
    ensures Erase(es, key) != [] && (!Has(es, key) ==> Erase(es, key) == es)
  {
  }

  lemma TwoKeys(st: TreeState, k1: Bytes, k2: Bytes)
    ensures DeleteStatus(st, k1) == Ok ==>
              AfterKeys(st, [k1, k2]) == (AfterDelete(AfterDelete(st, k1), k2), DeleteStatus(AfterDelete(st, k1), k2))
    ensures DeletedKeys(Model(st), [k1, k2]) == Model(st) - {k1} - {k2}
    ensures LookupReady(st, k1) && LookupSaved(st, k1) ==>
              (KeysReady(st, [k1, k2]) <==>
                 LookupReady(AfterDelete(st, k1), k2) && LookupSaved(AfterDelete(st, k1), k2))
  {
    hide AfterDelete, LookupReady, LookupSaved, Model;
    var st1, st2 := AfterDelete(st, k1), AfterDelete(AfterDelete(st, k1), k2);
    assert [k1, k2][1..] == [k2] && [k2][1..] == [];
    assert AfterKeys(st2, []) == (st2, Ok);
    assert AfterKeys(st1, [k2]) == (st2, DeleteStatus(st1, k2));
    assert DeletedKeys(Model(st) - {k1}, [k2]) == Model(st) - {k1} - {k2};
    assert KeysReady(st2, []);
    assert KeysReady(st1, [k2]) <==> LookupReady(st1, k2) && LookupSaved(st1, k2);
  }

  /** A second deletion that goes to a leaf the first one shrank brings the first key back. */
  lemma FirstKeyIsBack(st: TreeState, k1: Bytes, k2: Bytes)
    requires Intact(st) && st.unsaved == {} && k1 in Model(st) && k1 != k2
    requires var i := Find(st.leaves, k1);
             i < |st.leaves| && |st.leaves[i].entries| >= 2 && Find(AfterDelete(st, k1).leaves, k2) == i
    ensures k1 in Model(AfterKeys(st, [k1, k2]).0)
  {
    hide Intact, ToMap, AfterDelete, AfterKeys, DeletedKeys, Flatten, Contents, Find, Erase, LookupReady, LookupSaved,
         WithLeafShrunk, WithoutLeaf, KeysReady;
    var i, st1 := Find(st.leaves, k1), AfterDelete(st, k1);
    FirstDelete(st, k1);
    SecondDelete(st, st1, i, k1, k2);
    TwoKeys(st, k1, k2);
    var st2 := AfterDelete(st1, k2);
    IntactLeaf(st, i);
    EraseSpec(st.leaves[i].entries, k2);
    LeafWithinModel(Views(st2.leaves), i);
  }

  /** The first of them, when its leaf held more than this key. */
  lemma FirstDelete(st: TreeState, key: Bytes)
    requires Intact(st) && st.unsaved == {}
    ensures LookupReady(st, key) && LookupSaved(st, key) && DeleteStatus(st, key) == Ok
    ensures Intact(AfterDelete(st, key)) && Model(AfterDelete(st, key)) == Model(st) - {key}
    ensures key in Model(st) ==>
              var i := Find(st.leaves, key);
              && i < |st.leaves| && key in ToMap(st.leaves[i].entries)
              && (|st.leaves[i].entries| >= 2 ==> WithLeafShrunk(st, i, key, AfterDelete(st, key)))
  {
    hide Intact, ToMap, AfterDelete, Model, Find, LookupReady, LookupSaved, WithLeafShrunk, WithoutLeaf;
    NothingUnsaved(st);
    SettledIsReady(st, key);
    SavedLeaves(st);
    DeleteMeaning(st, key);
    if key in Model(st) { DeleteShape(st, key); }
  }

  lemma SameKeyTwice(st: TreeState, k: Bytes)
    requires Intact(st) && st.unsaved == {} && k in Model(st)
    requires var i := Find(st.leaves, k);
             i < |st.leaves| && |st.leaves[i].entries| >= 2 && Find(AfterDelete(st, k).leaves, k) == i
    ensures Lists(AfterKeys(st, [k, k]).0, Model(st) - {k}) && AfterKeys(st, [k, k]).1 == Ok
  {
    hide Intact, ToMap, AfterDelete, AfterKeys, DeletedKeys, Flatten, Find, Erase, LookupReady, LookupSaved, KeysReady, Sorted;
    var i, st1 := Find(st.leaves, k), AfterDelete(st, k);
    FirstDelete(st, k);
    SecondDelete(st, st1, i, k, k);
    TwoKeys(st, k, k);
    IntactLists(st1);
    var st2 := AfterDelete(st1, k);
    assert Views(st2.leaves) == Views(st1.leaves);
  }

  /** Two keys, present or not: exactly when the first is absent, was alone in its leaf, or is
      the second one, too, or the second goes to another leaf. */
  lemma TwoKeysRightIff(st: TreeState, k1: Bytes, k2: Bytes)
    requires Intact(st) && st.unsaved == {}
    ensures var i := Find(st.leaves, k1);
            Lists(AfterKeys(st, [k1, k2]).0, DeletedKeys(Model(st), [k1, k2])) && AfterKeys(st, [k1, k2]).1 == Ok <==>
              || k1 !in Model(st)
              || (i < |st.leaves| && |st.leaves[i].entries| == 1)
              || Find(AfterDelete(st, k1).leaves, k2) != i
              || k1 == k2
  {
    hide Intact, AfterDelete, AfterKeys, DeletedKeys, Model, Find, LookupReady, LookupSaved, KeysReady, Lists,
         WithLeafShrunk, ToMap;
    var i, st1 := Find(st.leaves, k1), AfterDelete(st, k1);
    FirstDelete(st, k1);
    TwoKeys(st, k1, k2);
    DeleteReadyIff(st, k1, k2);
    if LookupReady(st1, k2) {
      StaysSaved(st, k1, k2);
      KeysMeaning(st, [k1, k2]);
      IntactLists(AfterKeys(st, [k1, k2]).0);
    } else {
      SomeHeld(st, i, k1);
      if k1 == k2 {
        SameKeyTwice(st, k1);
        OnceIsTwice(Model(st), k1);
      } else {
        FirstKeyIsBack(st, k1, k2);
        ListsIsModel(AfterKeys(st, [k1, k2]).0, DeletedKeys(Model(st), [k1, k2]));
      }
    }
  }

  lemma ListsIsModel(st: TreeState, m: map<Bytes, Bytes>)
    ensures Lists(st, m) ==> Model(st) == m
  {
  }

  lemma OnceIsTwice(m: map<Bytes, Bytes>, k: Bytes)
    ensures m - {k} - {k} == m - {k}
  {
  }

  lemma SomeHeld(st: TreeState, i: nat, key: Bytes)
    requires i < |st.leaves| && key in ToMap(st.leaves[i].entries)
    ensures |st.leaves[i].entries| >= 1
  {
  }

  lemma StaysSaved(st: TreeState, k1: Bytes, k2: Bytes)
    requires Intact(st) && st.unsaved == {}
    ensures LookupSaved(AfterDelete(st, k1), k2)
  {
    hide Intact, AfterDelete, Model, Find, LookupReady, ToMap, Erase;
    var i, st' := Find(st.leaves, k1), AfterDelete(st, k1);
    FirstDelete(st, k1);
    SavedLeaves(st);
    if k1 in Model(st) {
      DeleteShape(st, k1);
      forall j | 0 <= j < |st'.leaves| ensures st'.leaves[j].id in st'.nodes {
        if |st.leaves[i].entries| == 1 { assert st'.leaves[j] == st.leaves[if j < i then j else j + 1]; }
      }
    } else {
      AbsentUnsavesNothing(st, k1);
    }
  }
}
