/** The B+ tree of an index as a value: leaves in memory, the nodes awaiting a save and
    the records in storage. The classes of `Bptrees` keep such a value as their abstract
    state; the steps below are what their methods do to it. */
module TreeStates {
  import opened DataOrder
  import opened OrderedMap
  import opened Codec
  import opened LeafCodec
  import opened Forest

  const MAX_NODE_SIZE := 16 * 1024

  /** Two keys of this size fit into a node. */
  const MAX_KEY_SIZE := 8 * 1024

  /** `Undefined` stands for running on into the split of a root, which reads the first of no
      children. */
  datatype Status = Ok | StorageKvNotFound | BptreeError | DuplicateKey | IteratorEnd | Undefined

  /** Unsigned 64-bit arithmetic wraps. */
  function Wrap64(x: int): uint64 { x % UINT64_RANGE }

  lemma WrapWrap(a: int, b: int)
    ensures Wrap64(Wrap64(a) + b) == Wrap64(a + b)
  {
  }

  // ---- statistics ----------------------------------------------------------

  const EMPTY_STAT := NodeStatistics([], [], 0, 0)

  /** A leaf of `count` entries after `key` was added. */
  function AddStat(stat: NodeStatistics, count: nat, key: Bytes, value: Bytes): NodeStatistics {
    var size := Wrap64(stat.nodeSize + |value|);
    if count == 1 then NodeStatistics(key, key, 1, Wrap64(size + |key| + |key| + 20))
    else
      var (maxKey, size) := if Less(stat.maxKey, key) then (key, Wrap64(size - |stat.maxKey| + |key|))
                            else (stat.maxKey, size);
      var (minKey, size) := if Less(key, stat.minKey) then (key, Wrap64(size - |stat.minKey| + |key|))
                            else (stat.minKey, size);
      NodeStatistics(minKey, maxKey, count, size)
  }

  /** A leaf holding `kvs` after `key` was removed. */
  function DelStat(stat: NodeStatistics, kvs: seq<Entry>, key: Bytes): NodeStatistics
    requires kvs != []
  {
    if key == stat.maxKey then
      NodeStatistics(stat.minKey, kvs[|kvs| - 1].key, |kvs|, Wrap64(stat.nodeSize - |stat.maxKey|))
    else if key == stat.minKey then
      NodeStatistics(kvs[0].key, stat.maxKey, |kvs|, Wrap64(stat.nodeSize - |stat.minKey|))
    else stat.(count := |kvs|)
  }

  /** An interior node over children spanning `minKey` to `maxKey`. */
  function RangeStat(stat: NodeStatistics, minKey: Bytes, maxKey: Bytes, isAdd: bool): NodeStatistics {
    NodeStatistics(minKey, maxKey, Wrap64(stat.count + (if isAdd then 1 else -1)),
                   Wrap64(stat.nodeSize - |stat.minKey| + |minKey| - |stat.maxKey| + |maxKey|))
  }

  /** Fewer than three entries or children are never split. */
  predicate SplitDue(stat: NodeStatistics, fanout: nat) {
    fanout >= 3 && stat.nodeSize > MAX_NODE_SIZE
  }

  ghost function PayloadSize(es: seq<Entry>): nat {
    if es == [] then 0
    else PayloadSize(es[..|es| - 1]) + |es[|es| - 1].key| + |es[|es| - 1].value|
  }

  // ---- state ---------------------------------------------------------------

  /** A leaf: what is in memory (`kvs`, the keys of `write_kvs`), the entries it stands for, and
      whether it is the node that awaits a save under its id. */
  datatype LeafState = LeafState(id: nat, kvs: seq<Entry>, written: set<Bytes>, entries: seq<Entry>,
                                 stat: NodeStatistics, listed: bool)

  /** What a record in storage decodes to. */
  datatype SavedNode = SavedLeaf(entries: seq<Entry>) | SavedRoot(children: seq<NodeRef>)

  /** No key is longer than `keyLimit`. */
  datatype TreeState = TreeState(rootId: nat, rootStat: NodeStatistics, leaves: seq<LeafState>,
                                 unsaved: set<nat>, nodes: map<nat, SavedNode>, maxId: nat, keyLimit: nat)

  ghost function View(l: LeafState): LeafView { LeafView(l.entries, l.stat.minKey, l.stat.maxKey) }

  ghost function Views(ls: seq<LeafState>): (vs: seq<LeafView>)
    ensures |vs| == |ls|
    ensures forall i :: 0 <= i < |ls| ==> vs[i] == View(ls[i])
  {
    seq(|ls|, i requires 0 <= i < |ls| => View(ls[i]))
  }

  /** The finite map the tree stands for. */
  ghost function Model(st: TreeState): map<Bytes, Bytes> { Contents(Views(st.leaves)) }

  ghost predicate Sized(es: seq<Entry>, limit: nat) {
    forall i :: 0 <= i < |es| ==> |es[i].key| <= limit && |es[i].value| < UINT32_RANGE
  }

  ghost predicate StoredOk(node: SavedNode, limit: nat) {
    node.SavedLeaf? && Sorted(node.entries) && Sized(node.entries, limit)
  }

  /** What every operation needs of a leaf, and keeps, whatever happened before. */
  ghost predicate LeafWf(st: TreeState, l: LeafState) {
    && l.id != st.rootId
    && Sorted(l.kvs) && Sized(l.kvs, st.keyLimit) && l.written <= Keys(l.kvs)
    && |l.stat.minKey| <= st.keyLimit && |l.stat.maxKey| <= st.keyLimit
  }

  /** A leaf awaiting a save holds its entries in memory; any other leaf has them in
      storage, and in memory either all of them or none. */
  ghost predicate LeafBacked(st: TreeState, l: LeafState) {
    if l.id in st.unsaved then l.kvs == l.entries
    else && l.id in st.nodes && st.nodes[l.id] == SavedLeaf(l.entries)
         && (l.kvs == [] || l.kvs == l.entries)
  }

  ghost predicate LeafInv(st: TreeState, l: LeafState) { LeafWf(st, l) && LeafBacked(st, l) }

  ghost predicate DistinctIds(ls: seq<LeafState>) {
    forall i, j :: 0 <= i < j < |ls| ==> ls[i].id != ls[j].id
  }

  /** The root's size is the size of its two outer keys; every other record is that of a leaf. */
  ghost predicate RootInv(st: TreeState) {
    && st.rootId <= st.maxId && st.keyLimit < UINT32_RANGE
    && st.rootStat.nodeSize == |st.rootStat.minKey| + |st.rootStat.maxKey|
    && |st.rootStat.minKey| <= st.keyLimit && |st.rootStat.maxKey| <= st.keyLimit
    && (forall k :: k in st.nodes && k != st.rootId ==> StoredOk(st.nodes[k], st.keyLimit))
  }

  /** Every id that awaits a save is that of the root or of one leaf. */
  ghost predicate ListedOk(ls: seq<LeafState>, unsaved: set<nat>, rootId: nat) {
    && (forall i :: 0 <= i < |ls| && ls[i].listed ==> ls[i].id in unsaved)
    && (forall i, j :: 0 <= i < j < |ls| && ls[i].listed && ls[j].listed ==> ls[i].id != ls[j].id)
    && (forall k :: k in unsaved ==> k == rootId || IsListed(ls, k))
  }

  ghost predicate IsListed(ls: seq<LeafState>, id: nat) {
    exists i :: 0 <= i < |ls| && ls[i].listed && ls[i].id == id
  }

  /** The part of the invariant that no update can break, with or without a save before it, and
      whatever ids are given out. */
  ghost predicate WellFormed(st: TreeState) {
    && RootInv(st) && ListedOk(st.leaves, st.unsaved, st.rootId)
    && (forall i :: 0 <= i < |st.leaves| ==> LeafWf(st, st.leaves[i]))
  }

  ghost predicate Backed(st: TreeState) {
    forall i :: 0 <= i < |st.leaves| ==> LeafBacked(st, st.leaves[i])
  }

  ghost predicate LeavesInv(st: TreeState) {
    WellFormed(st) && DistinctIds(st.leaves) && Backed(st) && ForestOk(Views(st.leaves))
  }

  /** The next id is that of no leaf. */
  ghost predicate IdFree(st: TreeState) {
    forall i :: 0 <= i < |st.leaves| ==> st.leaves[i].id != st.maxId + 1
  }

  /** No id above the largest one given out is in use, in the tree or in storage. */
  ghost predicate Fresh(st: TreeState) {
    && (forall k :: k in st.nodes ==> k <= st.maxId)
    && (forall i :: 0 <= i < |st.leaves| ==> st.leaves[i].id <= st.maxId)
  }

  ghost function Ref(l: LeafState): NodeRef { NodeRef(l.id, true, l.stat) }

  ghost function RootRecord(st: TreeState): SavedNode {
    SavedRoot(seq(|st.leaves|, i requires 0 <= i < |st.leaves| => Ref(st.leaves[i])))
  }

  ghost predicate RootSynced(st: TreeState) {
    || st.rootId in st.unsaved
    || (st.rootId !in st.nodes && st.leaves == [])
    || (st.rootId in st.nodes && st.nodes[st.rootId] == RootRecord(st))
  }

  /** A tree that stands for a finite map, in memory and in storage. */
  ghost predicate Intact(st: TreeState) { LeavesInv(st) && RootSynced(st) }

  /** One whose new nodes get new ids, too. */
  ghost predicate Inv(st: TreeState) { Intact(st) && Fresh(st) }

  /** Re-reading this leaf would not change it: what storage holds for it is part of
      what it holds in memory. */
  ghost predicate LeafSettled(st: TreeState, l: LeafState) {
    l.id in st.unsaved && l.id in st.nodes ==>
      st.nodes[l.id].SavedLeaf? && Keys(st.nodes[l.id].entries) <= Keys(l.entries)
  }

  ghost predicate Settled(st: TreeState) {
    forall i :: 0 <= i < |st.leaves| ==> LeafSettled(st, st.leaves[i])
  }

  // ---- steps ---------------------------------------------------------------

  ghost function PutLeaf(st: TreeState, i: nat, l: LeafState): TreeState
    requires i < |st.leaves|
  {
    st.(leaves := st.leaves[i := l])
  }

  /** The entries a leaf holds after its record was merged into those in memory. */
  ghost function Reread(st: TreeState, l: LeafState): seq<Entry> {
    if l.id in st.nodes && st.nodes[l.id].SavedLeaf? then EmplaceAll(l.kvs, st.nodes[l.id].entries) else l.kvs
  }

  ghost function LoadLeaf(st: TreeState, i: nat): (st': TreeState)
    requires i < |st.leaves|
    ensures |st'.leaves| == |st.leaves|
  {
    var kvs := Reread(st, st.leaves[i]);
    PutLeaf(st, i, st.leaves[i].(kvs := kvs, entries := kvs))
  }

  /** Collecting a leaf to be saved displaces any other one with its id. */
  ghost function Listed(ls: seq<LeafState>, i: nat): (ms: seq<LeafState>)
    requires i < |ls|
    ensures |ms| == |ls|
    ensures forall j :: 0 <= j < |ls| ==>
              ms[j] == ls[j].(listed := if ls[j].id == ls[i].id then j == i else ls[j].listed)
  {
    seq(|ls|, j requires 0 <= j < |ls| => ls[j].(listed := if ls[j].id == ls[i].id then j == i else ls[j].listed))
  }

  ghost function Unlisted(ls: seq<LeafState>, id: nat): (ms: seq<LeafState>)
    ensures |ms| == |ls|
    ensures forall j :: 0 <= j < |ls| ==> ms[j] == ls[j].(listed := ls[j].listed && ls[j].id != id)
  {
    seq(|ls|, j requires 0 <= j < |ls| => ls[j].(listed := ls[j].listed && ls[j].id != id))
  }

  ghost function CollectLeaf(st: TreeState, i: nat): (st': TreeState)
    requires i < |st.leaves|
    ensures |st'.leaves| == |st.leaves|
  {
    st.(leaves := Listed(st.leaves, i), unsaved := st.unsaved + {st.leaves[i].id})
  }

  ghost function WithEntry(l: LeafState, e: Entry): LeafState {
    var kvs := Emplace(l.kvs, e);
    l.(kvs := kvs, written := l.written + {e.key}, entries := kvs, stat := AddStat(l.stat, |kvs|, e.key, e.value))
  }

  ghost function InsertStep(st: TreeState, i: nat, e: Entry): (st': TreeState)
    requires i < |st.leaves|
    ensures |st'.leaves| == |st.leaves|
  {
    CollectLeaf(PutLeaf(st, i, WithEntry(st.leaves[i], e)), i)
  }

  /** A new leaf in an empty tree. */
  ghost function NewLeaf(st: TreeState): TreeState {
    st.(leaves := [LeafState(st.maxId + 1, [], {}, [], EMPTY_STAT, false)], maxId := st.maxId + 1)
  }

  function Cut(n: nat): nat { (n + 1) / 2 }

  ghost function LeftHalf(l: LeafState): LeafState
    requires |l.kvs| >= 2
  {
    var kvs, moved := l.kvs[..Cut(|l.kvs|)], l.kvs[Cut(|l.kvs|)..];
    LeafState(l.id, kvs, l.written - Keys(moved), kvs,
              NodeStatistics(kvs[0].key, kvs[|kvs| - 1].key, |kvs|,
                             Wrap64(l.stat.nodeSize - Wrap64(PayloadSize(moved)))), l.listed)
  }

  ghost function RightHalf(l: LeafState, id: nat): LeafState
    requires |l.kvs| >= 2
  {
    var kvs := l.kvs[Cut(|l.kvs|)..];
    LeafState(id, kvs, Keys(kvs), kvs,
              NodeStatistics(kvs[0].key, kvs[|kvs| - 1].key, 0, Wrap64(PayloadSize(kvs))), false)
  }

  /** First leaf whose maximal key is not below `key`. */
  ghost function FirstMax(ls: seq<LeafState>, key: Bytes): (i: nat)
    ensures i <= |ls|
    ensures forall j :: 0 <= j < i ==> Less(ls[j].stat.maxKey, key)
    ensures i < |ls| ==> !Less(ls[i].stat.maxKey, key)
  {
    if ls == [] || !Less(ls[0].stat.maxKey, key) then 0 else 1 + FirstMax(ls[1..], key)
  }

  /** First leaf whose maximal key is above `key`. */
  ghost function FirstAbove(ls: seq<LeafState>, key: Bytes): (i: nat)
    ensures i <= |ls|
    ensures forall j :: 0 <= j < i ==> LessEq(ls[j].stat.maxKey, key)
    ensures i < |ls| ==> Less(key, ls[i].stat.maxKey)
  {
    if ls == [] || Less(key, ls[0].stat.maxKey) then 0 else 1 + FirstAbove(ls[1..], key)
  }

  /** The right half goes before the first leaf with a larger maximal key. */
  ghost function SplitLeaves(ls: seq<LeafState>, i: nat, id: nat): (ms: seq<LeafState>)
    requires i < |ls| && |ls[i].kvs| >= 2
    ensures |ms| == |ls| + 1
  {
    var l, r := LeftHalf(ls[i]), RightHalf(ls[i], id);
    var at := FirstAbove(ls[i := l], r.stat.maxKey);
    ls[i := l][..at] + [r] + ls[i := l][at..]
  }

  /** Where the right half and the left half are then. */
  ghost function RightAt(ls: seq<LeafState>, i: nat): (at: nat)
    requires i < |ls| && |ls[i].kvs| >= 2
    ensures at <= |ls|
  {
    FirstAbove(ls[i := LeftHalf(ls[i])], RightHalf(ls[i], 0).stat.maxKey)
  }

  ghost function LeftAt(ls: seq<LeafState>, i: nat): (at: nat)
    requires i < |ls| && |ls[i].kvs| >= 2
    ensures at <= |ls|
  {
    if RightAt(ls, i) <= i then i + 1 else i
  }

  /** The right half is collected first, then the left one. */
  ghost function SplitStep(st: TreeState, i: nat): (st': TreeState)
    requires i < |st.leaves| && |st.leaves[i].kvs| >= 2
    ensures |st'.leaves| == |st.leaves| + 1
  {
    var st1 := st.(leaves := SplitLeaves(st.leaves, i, st.maxId + 1), maxId := st.maxId + 1);
    CollectLeaf(CollectLeaf(st1, RightAt(st.leaves, i)), LeftAt(st.leaves, i))
  }

  /** The key is out of the leaf, statistics and links still old. */
  ghost function KeyErased(st: TreeState, i: nat, key: Bytes): (st': TreeState)
    requires i < |st.leaves|
    ensures |st'.leaves| == |st.leaves|
  {
    var l := st.leaves[i];
    PutLeaf(st, i, l.(kvs := Erase(l.kvs, key), written := l.written - {key}, entries := Erase(l.kvs, key)))
  }

  ghost function StatShrunk(st: TreeState, i: nat, key: Bytes): (st': TreeState)
    requires i < |st.leaves| && st.leaves[i].kvs != []
    ensures |st'.leaves| == |st.leaves|
  {
    var l := st.leaves[i];
    CollectLeaf(PutLeaf(st, i, l.(stat := DelStat(l.stat, l.kvs, key))), i)
  }

  /** A leaf whose last entry was erased leaves the tree, when the search by its maximal key
      finds it, and nothing is saved under its id. */
  ghost function UnlinkStep(st: TreeState, i: nat): TreeState
    requires i < |st.leaves|
  {
    var ls := Unlisted(st.leaves, st.leaves[i].id);
    st.(leaves := if FirstMax(st.leaves, st.leaves[i].stat.maxKey) == i then ls[..i] + ls[i + 1..] else ls,
        unsaved := st.unsaved - {st.leaves[i].id})
  }

  ghost function ResetRoot(st: TreeState): TreeState {
    st.(rootStat := EMPTY_STAT, unsaved := st.unsaved + {st.rootId})
  }

  /** What the node that awaits a save under `k` is written as. */
  ghost function SavedOf(st: TreeState, k: nat): SavedNode {
    if k != st.rootId && IsListed(st.leaves, k) then
      var i :| 0 <= i < |st.leaves| && st.leaves[i].listed && st.leaves[i].id == k; SavedLeaf(st.leaves[i].kvs)
    else RootRecord(st)
  }

  ghost function AfterSave(st: TreeState): (st': TreeState)
    ensures |st'.leaves| == |st.leaves|
    ensures forall i :: 0 <= i < |st.leaves| ==> st'.leaves[i] == st.leaves[i].(listed := false)
  {
    st.(unsaved := {},
        nodes := map k | k in st.nodes.Keys + st.unsaved :: if k in st.unsaved then SavedOf(st, k) else st.nodes[k],
        leaves := seq(|st.leaves|, i requires 0 <= i < |st.leaves| => st.leaves[i].(listed := false)))
  }

  lemma SavedLeafOf(st: TreeState, i: nat)
    requires ListedOk(st.leaves, st.unsaved, st.rootId) && i < |st.leaves| && st.leaves[i].listed
    requires st.leaves[i].id != st.rootId
    ensures SavedOf(st, st.leaves[i].id) == SavedLeaf(st.leaves[i].kvs)
  {
  }

  /** What storage has for a leaf. */
  ghost function StoredEntries(nodes: map<nat, SavedNode>, id: nat): seq<Entry> {
    if id in nodes && nodes[id].SavedLeaf? then nodes[id].entries else []
  }

  /** A fresh tree over the same storage: nothing is in memory, and ids continue from `maxId`. */
  ghost function ReopenStep(st: TreeState, maxId: nat): (st': TreeState)
    ensures |st'.leaves| == |st.leaves|
    ensures forall i :: 0 <= i < |st.leaves| ==>
              st'.leaves[i] == LeafState(st.leaves[i].id, [], {}, StoredEntries(st.nodes, st.leaves[i].id),
                                         st.leaves[i].stat, false)
  {
    TreeState(st.rootId, EMPTY_STAT,
              seq(|st.leaves|, i requires 0 <= i < |st.leaves| =>
                LeafState(st.leaves[i].id, [], {}, StoredEntries(st.nodes, st.leaves[i].id), st.leaves[i].stat, false)),
              {}, st.nodes, maxId, st.keyLimit)
  }

  ghost function TouchRoot(st: TreeState, isAdd: bool): TreeState
    requires st.leaves != []
  {
    st.(rootStat := RangeStat(st.rootStat, st.leaves[0].stat.minKey,
                              st.leaves[|st.leaves| - 1].stat.maxKey, isAdd),
        unsaved := st.unsaved + {st.rootId})
  }

  // ---- what every step keeps -----------------------------------------------

  lemma {:induction false} MergeSized(s: seq<Entry>, es: seq<Entry>, limit: nat)
    requires Sized(s, limit) && Sized(es, limit)
    ensures Sized(EmplaceAll(s, es), limit)
    decreases |es|
  {
    if es != [] {
      MergeSized(s, es[..|es| - 1], limit);
      EmplaceSized(EmplaceAll(s, es[..|es| - 1]), es[|es| - 1], limit);
    }
  }

  lemma EmplaceSized(s: seq<Entry>, e: Entry, limit: nat)
    requires Sized(s, limit) && |e.key| <= limit && |e.value| < UINT32_RANGE
    ensures Sized(Emplace(s, e), limit)
  {
    var n, t := LowerBound(s, e.key), Emplace(s, e);
    forall j | 0 <= j < |t| ensures |t[j].key| <= limit && |t[j].value| < UINT32_RANGE {
      assert t == s || t[j] == e || t[j] == s[if j < n then j else j - 1];
    }
  }

  lemma EraseSized(s: seq<Entry>, key: Bytes, limit: nat)
    requires Sized(s, limit)
    ensures Sized(Erase(s, key), limit)
  {
    var t := Erase(s, key);
    forall j | 0 <= j < |t| ensures |t[j].key| <= limit && |t[j].value| < UINT32_RANGE {
      assert t[j] == s[j] || t[j] == s[j + 1];
    }
  }

  /** Replacing one leaf by another version of itself. */
  lemma PutWf(st: TreeState, i: nat, l: LeafState)
    requires WellFormed(st) && i < |st.leaves| && l.id == st.leaves[i].id && l.listed == st.leaves[i].listed && LeafWf(st, l)
    ensures WellFormed(PutLeaf(st, i, l)) && WellFormed(CollectLeaf(PutLeaf(st, i, l), i))
  {
    hide LeafWf, IsListed;
    var st' := PutLeaf(st, i, l);
    forall j | 0 <= j < |st.leaves| ensures LeafWf(st', st'.leaves[j]) { SameWf(st, st', st'.leaves[j], st'.leaves[j]); }
    ListedPut(st.leaves, st.unsaved, st.rootId, i, l);
    CollectWf(st', i);
  }

  lemma ListedPut(ls: seq<LeafState>, unsaved: set<nat>, rootId: nat, i: nat, l: LeafState)
    requires ListedOk(ls, unsaved, rootId) && i < |ls| && l.id == ls[i].id && l.listed == ls[i].listed
    ensures ListedOk(ls[i := l], unsaved, rootId)
  {
    forall k | k in unsaved && k != rootId ensures IsListed(ls[i := l], k) {
      var j :| 0 <= j < |ls| && ls[j].listed && ls[j].id == k;
      assert ls[i := l][j].listed && ls[i := l][j].id == k;
    }
  }

  lemma CollectWf(st: TreeState, i: nat)
    requires WellFormed(st) && i < |st.leaves|
    ensures WellFormed(CollectLeaf(st, i))
  {
    hide LeafWf, IsListed;
    var st' := CollectLeaf(st, i);
    forall j | 0 <= j < |st.leaves| ensures LeafWf(st', st'.leaves[j]) { SameWf(st, st', st.leaves[j], st'.leaves[j]); }
    ListedCollect(st.leaves, st.unsaved, st.rootId, i);
  }

  lemma ListedCollect(ls: seq<LeafState>, unsaved: set<nat>, rootId: nat, i: nat)
    requires ListedOk(ls, unsaved, rootId) && i < |ls|
    ensures ListedOk(Listed(ls, i), unsaved + {ls[i].id}, rootId)
  {
    var ms := Listed(ls, i);
    forall k | k in unsaved + {ls[i].id} && k != rootId ensures IsListed(ms, k) {
      if k == ls[i].id {
        assert ms[i].listed && ms[i].id == k;
      } else {
        var j :| 0 <= j < |ls| && ls[j].listed && ls[j].id == k;
        assert ms[j].listed && ms[j].id == k;
      }
    }
  }

  /** What is asked of a leaf depends on the id of the root only. */
  lemma SameWf(st: TreeState, st': TreeState, l: LeafState, l': LeafState)
    requires LeafWf(st, l) && st'.rootId == st.rootId && st'.keyLimit == st.keyLimit
    requires l' == l.(listed := l'.listed)
    ensures LeafWf(st', l')
  {
  }

  lemma LoadWf(st: TreeState, i: nat)
    requires WellFormed(st) && i < |st.leaves|
    ensures WellFormed(LoadLeaf(st, i))
  {
    hide EmplaceAll, ToMap, DataCmp, IsListed;
    var l := st.leaves[i];
    assert LeafWf(st, l);
    if l.id in st.nodes {
      MergeKeys(l.kvs, st.nodes[l.id].entries);
      MergeSized(l.kvs, st.nodes[l.id].entries, st.keyLimit);
    }
    PutWf(st, i, LoadLeaf(st, i).leaves[i]);
  }

  lemma AddStatSized(stat: NodeStatistics, count: nat, key: Bytes, value: Bytes, limit: nat)
    requires |stat.minKey| <= limit && |stat.maxKey| <= limit && |key| <= limit
    ensures var s := AddStat(stat, count, key, value); |s.minKey| <= limit && |s.maxKey| <= limit
  {
  }

  lemma WithEntryWf(st: TreeState, l: LeafState, e: Entry)
    requires LeafWf(st, l) && |e.key| <= st.keyLimit && |e.value| < UINT32_RANGE
    ensures LeafWf(st, WithEntry(l, e)) && LeafWf(st, WithEntry(l, e).(stat := l.stat))
  {
    hide ToMap, DataCmp, Emplace, AddStat;
    EmplaceSpec(l.kvs, e);
    EmplaceSized(l.kvs, e, st.keyLimit);
    AddStatSized(l.stat, |Emplace(l.kvs, e)|, e.key, e.value, st.keyLimit);
  }

  lemma InsertWf(st: TreeState, i: nat, e: Entry)
    requires WellFormed(st) && i < |st.leaves| && |e.key| <= st.keyLimit && |e.value| < UINT32_RANGE
    ensures WellFormed(InsertStep(st, i, e))
  {
    hide LeafWf, WithEntry, IsListed;
    WithEntryWf(st, st.leaves[i], e);
    SameId(st.leaves[i], e);
    PutWf(st, i, WithEntry(st.leaves[i], e));
  }

  lemma SameId(l: LeafState, e: Entry)
    ensures WithEntry(l, e).id == l.id && WithEntry(l, e).listed == l.listed
  {
  }

  lemma NewLeafWf(st: TreeState)
    requires WellFormed(st) && st.leaves == []
    ensures WellFormed(NewLeaf(st))
  {
  }

  lemma HalvesWf(st: TreeState, p: LeafState, id: nat)
    requires LeafWf(st, p) && |p.kvs| >= 2 && id != st.rootId
    ensures LeafWf(st, LeftHalf(p)) && LeafWf(st, RightHalf(p, id))
  {
    hide DataCmp, PayloadSize, ToMap;
    var s, n := p.kvs, Cut(|p.kvs|);
    SortedSlice(s, 0, n);
    SortedSlice(s, n, |s|);
    assert s[..n] == s[0..n] && s[n..] == s[n..|s|];
    ToMapSplit(s, n);
  }

  lemma SplitWf(st: TreeState, i: nat)
    requires WellFormed(st) && i < |st.leaves| && |st.leaves[i].kvs| >= 2
    ensures WellFormed(SplitStep(st, i))
  {
    hide LeafWf, LeftHalf, RightHalf, FirstAbove, SplitLeaves, RightAt, LeftAt, CollectLeaf, IsListed;
    var st1 := st.(leaves := SplitLeaves(st.leaves, i, st.maxId + 1), maxId := st.maxId + 1);
    SplitLeavesWf(st, i, st1);
    CollectWf(st1, RightAt(st.leaves, i));
    CollectWf(CollectLeaf(st1, RightAt(st.leaves, i)), LeftAt(st.leaves, i));
  }

  lemma SplitLeavesWf(st: TreeState, i: nat, st1: TreeState)
    requires WellFormed(st) && i < |st.leaves| && |st.leaves[i].kvs| >= 2
    requires st1 == st.(leaves := SplitLeaves(st.leaves, i, st.maxId + 1), maxId := st.maxId + 1)
    ensures WellFormed(st1)
  {
    hide LeafWf, LeftHalf, RightHalf, FirstAbove, ListedOk, StoredOk;
    var l, r := LeftHalf(st.leaves[i]), RightHalf(st.leaves[i], st.maxId + 1);
    var ls, at := st.leaves[i := l], FirstAbove(st.leaves[i := l], r.stat.maxKey);
    HalfIds(st.leaves[i], st.maxId + 1);
    HalvesWf(st, st.leaves[i], st.maxId + 1);
    ListedPut(st.leaves, st.unsaved, st.rootId, i, l);
    PutIn(ls, at, r);
    ListedPutIn(ls, st1.leaves, st.unsaved, st.rootId, at);
    forall j | 0 <= j < |st1.leaves| ensures LeafWf(st1, st1.leaves[j]) {
      SameWf(st, st1, st1.leaves[j], st1.leaves[j]);
    }
  }

  lemma HalfIds(l: LeafState, id: nat)
    requires |l.kvs| >= 2
    ensures LeftHalf(l).id == l.id && RightHalf(l, id).id == id
    ensures LeftHalf(l).listed == l.listed && !RightHalf(l, id).listed
    ensures RightHalf(l, id) == RightHalf(l, 0).(id := id)
  {
  }

  lemma ListedPutIn(ls: seq<LeafState>, ms: seq<LeafState>, unsaved: set<nat>, rootId: nat, at: nat)
    requires ListedOk(ls, unsaved, rootId) && at < |ms| == |ls| + 1 && !ms[at].listed
    requires forall j :: 0 <= j < at ==> ms[j] == ls[j]
    requires forall j :: at < j < |ms| ==> ms[j] == ls[j - 1]
    ensures ListedOk(ms, unsaved, rootId)
  {
    forall a, b | 0 <= a < b < |ms| && ms[a].listed && ms[b].listed ensures ms[a].id != ms[b].id {
      assert ls[if a < at then a else a - 1].id != ls[if b < at then b else b - 1].id;
    }
    forall k | k in unsaved && k != rootId ensures IsListed(ms, k) {
      var j :| 0 <= j < |ls| && ls[j].listed && ls[j].id == k;
      var m := if j < at then j else j + 1;
      assert ms[m].listed && ms[m].id == k;
    }
  }

  lemma KeyErasedWf(st: TreeState, i: nat, key: Bytes)
    requires WellFormed(st) && i < |st.leaves|
    ensures WellFormed(KeyErased(st, i, key))
  {
    hide ToMap, DataCmp, Erase, IsListed;
    var l := st.leaves[i];
    assert LeafWf(st, l);
    EraseSpec(l.kvs, key);
    EraseSized(l.kvs, key, st.keyLimit);
    PutWf(st, i, KeyErased(st, i, key).leaves[i]);
  }

  lemma StatShrunkWf(st: TreeState, i: nat, key: Bytes)
    requires WellFormed(st) && i < |st.leaves| && st.leaves[i].kvs != []
    ensures WellFormed(StatShrunk(st, i, key))
  {
    hide ToMap, DataCmp, IsListed;
    var l := st.leaves[i];
    assert LeafWf(st, l);
    PutWf(st, i, l.(stat := DelStat(l.stat, l.kvs, key)));
  }

  lemma UnlinkWf(st: TreeState, i: nat)
    requires WellFormed(st) && i < |st.leaves|
    ensures WellFormed(UnlinkStep(st, i))
  {
    hide LeafWf, IsListed, FirstMax;
    var st', id, ls := UnlinkStep(st, i), st.leaves[i].id, Unlisted(st.leaves, st.leaves[i].id);
    ListedUncollect(st.leaves, st.unsaved, st.rootId, i);
    forall j | 0 <= j < |ls| ensures LeafWf(st', ls[j]) { SameWf(st, st', st.leaves[j], ls[j]); }
    forall j | 0 <= j < |st'.leaves| ensures LeafWf(st', st'.leaves[j]) {
      assert st'.leaves[j] == ls[j] || st'.leaves[j] == ls[j + 1];
    }
  }

  lemma ListedUncollect(ls: seq<LeafState>, unsaved: set<nat>, rootId: nat, i: nat)
    requires ListedOk(ls, unsaved, rootId) && i < |ls|
    ensures var ms, rest := Unlisted(ls, ls[i].id), unsaved - {ls[i].id};
            ListedOk(ms, rest, rootId) && ListedOk(ms[..i] + ms[i + 1..], rest, rootId)
  {
    var ms, rest := Unlisted(ls, ls[i].id), unsaved - {ls[i].id};
    forall k | k in rest && k != rootId ensures IsListed(ms, k) {
      var j :| 0 <= j < |ls| && ls[j].listed && ls[j].id == k;
      assert ms[j].listed && ms[j].id == k;
    }
    ListedDrop(ms, ms[..i] + ms[i + 1..], rest, rootId, i);
  }

  /** A leaf that is not to be saved may go. */
  lemma ListedDrop(ms: seq<LeafState>, ns: seq<LeafState>, unsaved: set<nat>, rootId: nat, i: nat)
    requires ListedOk(ms, unsaved, rootId) && i < |ms| == |ns| + 1 && !ms[i].listed
    requires forall j :: 0 <= j < i ==> ns[j] == ms[j]
    requires forall j :: i <= j < |ns| ==> ns[j] == ms[j + 1]
    ensures ListedOk(ns, unsaved, rootId)
  {
    forall a, b | 0 <= a < b < |ns| && ns[a].listed && ns[b].listed ensures ns[a].id != ns[b].id {
      assert ms[if a < i then a else a + 1].id != ms[if b < i then b else b + 1].id;
    }
    forall k | k in unsaved && k != rootId ensures IsListed(ns, k) {
      var j :| 0 <= j < |ms| && ms[j].listed && ms[j].id == k;
      var m := if j < i then j else j - 1;
      assert ns[m].listed && ns[m].id == k;
    }
  }

  lemma SaveWf(st: TreeState)
    requires WellFormed(st)
    ensures WellFormed(AfterSave(st))
  {
    hide SavedOf, ToMap, DataCmp, LeafWf, StoredOk;
    var st' := AfterSave(st);
    forall j | 0 <= j < |st'.leaves| ensures LeafWf(st', st'.leaves[j]) { SameWf(st, st', st.leaves[j], st'.leaves[j]); }
    forall k | k in st'.nodes && k != st.rootId ensures StoredOk(st'.nodes[k], st.keyLimit) {
      if k in st.unsaved { SavedIsLeaf(st, k); }
    }
  }

  lemma SavedIsLeaf(st: TreeState, k: nat)
    requires WellFormed(st) && k in st.unsaved && k != st.rootId
    ensures StoredOk(SavedOf(st, k), st.keyLimit)
  {
    hide ToMap, DataCmp, SavedOf;
    var i :| 0 <= i < |st.leaves| && st.leaves[i].listed && st.leaves[i].id == k;
    assert LeafWf(st, st.leaves[i]);
    SavedLeafOf(st, i);
  }

  /** An update leaves the root with the outer keys of its leaves. It is due for a split
      exactly when there are three leaves or more and these two keys exceed a node. */
  lemma RootDueIff(st: TreeState, isAdd: bool)
    requires WellFormed(st) && st.leaves != []
    ensures WellFormed(TouchRoot(st, isAdd))
    ensures RootDue(TouchRoot(st, isAdd)) <==>
            |st.leaves| >= 3 && |st.leaves[0].stat.minKey| + |st.leaves[|st.leaves| - 1].stat.maxKey| > MAX_NODE_SIZE
  {
    hide ToMap, DataCmp, Sized, StoredOk, IsListed;
    var st', last := TouchRoot(st, isAdd), |st.leaves| - 1;
    assert LeafWf(st, st.leaves[0]) && LeafWf(st, st.leaves[last]);
    RangeStatSize(st.rootStat, st.leaves[0].stat.minKey, st.leaves[last].stat.maxKey, isAdd);
    forall j | 0 <= j < |st'.leaves| ensures LeafWf(st', st'.leaves[j]) { SameWf(st, st', st.leaves[j], st.leaves[j]); }
  }

  ghost predicate RootDue(st: TreeState) { SplitDue(st.rootStat, |st.leaves|) }

  /** With keys of at most half a node the root is never due for a split, so one interior
      level is all the tree ever has. */
  lemma SmallKeysNeverDue(st: TreeState)
    requires WellFormed(st) && 2 * st.keyLimit <= MAX_NODE_SIZE
    ensures !RootDue(st)
  {
  }

  lemma RangeStatSize(stat: NodeStatistics, minKey: Bytes, maxKey: Bytes, isAdd: bool)
    requires stat.nodeSize == |stat.minKey| + |stat.maxKey|
    requires |minKey| < UINT32_RANGE && |maxKey| < UINT32_RANGE
    ensures RangeStat(stat, minKey, maxKey, isAdd).nodeSize == |minKey| + |maxKey|
  {
  }

  lemma ResetRootWf(st: TreeState)
    requires WellFormed(st)
    ensures WellFormed(ResetRoot(st))
  {
    hide LeafWf, IsListed, StoredOk;
    var st' := ResetRoot(st);
    forall j | 0 <= j < |st'.leaves| ensures LeafWf(st', st'.leaves[j]) { SameWf(st, st', st.leaves[j], st.leaves[j]); }
  }

  lemma IntactParts(st: TreeState)
    requires Intact(st)
    ensures WellFormed(st) && RootSynced(st) && DistinctIds(st.leaves) && ForestOk(Views(st.leaves)) && st.rootId <= st.maxId
  {
  }

  // ---- what the steps mean for the content ----------------------------------

  /** Re-reading a settled leaf yields its entries, in the two states a leaf can be in. */
  lemma RereadIsEntries(st: TreeState, l: LeafState)
    requires LeafInv(st, l) && LeafSettled(st, l) && Sorted(l.entries)
    ensures Reread(st, l) == l.entries
  {
    hide DataCmp, ToMap, EmplaceAll;
    if l.id in st.nodes {
      var stored := st.nodes[l.id].entries;
      if l.id !in st.unsaved && l.kvs == [] { EmplaceAllIntoEmpty(stored); } else { MergeKnown(l.kvs, stored); }
    }
  }

  lemma SameViews(ls: seq<LeafState>, ms: seq<LeafState>)
    requires |ls| == |ms| && forall j :: 0 <= j < |ls| ==> View(ls[j]) == View(ms[j])
    ensures Views(ls) == Views(ms)
  {
  }

  lemma SameRefs(st: TreeState, st': TreeState)
    requires |st.leaves| == |st'.leaves|
    requires forall j :: 0 <= j < |st.leaves| ==> Ref(st.leaves[j]) == Ref(st'.leaves[j])
    ensures RootRecord(st) == RootRecord(st')
  {
  }

  lemma ListedAlone(ls: seq<LeafState>, i: nat)
    requires DistinctIds(ls) && i < |ls|
    ensures Listed(ls, i) == ls[i := ls[i].(listed := true)]
  {
  }

  /** A leaf awaits a save exactly when its id does. */
  lemma ListedIff(st: TreeState, i: nat)
    requires WellFormed(st) && DistinctIds(st.leaves) && i < |st.leaves|
    ensures st.leaves[i].listed <==> st.leaves[i].id in st.unsaved
  {
    hide Sorted, Sized, Keys, StoredOk;
    assert LeafWf(st, st.leaves[i]);
    if st.leaves[i].id in st.unsaved {
      var j :| 0 <= j < |st.leaves| && st.leaves[j].listed && st.leaves[j].id == st.leaves[i].id;
    }
  }

  /** Loading a settled leaf changes no content. */
  lemma LoadKeeps(st: TreeState, i: nat)
    requires LeavesInv(st) && i < |st.leaves| && LeafSettled(st, st.leaves[i])
    ensures LoadLeaf(st, i) == PutLeaf(st, i, st.leaves[i].(kvs := st.leaves[i].entries))
    ensures LeavesInv(LoadLeaf(st, i)) && (Fresh(st) ==> Fresh(LoadLeaf(st, i)))
    ensures Views(LoadLeaf(st, i).leaves) == Views(st.leaves)
    ensures RootSynced(st) ==> RootSynced(LoadLeaf(st, i))
    ensures Settled(st) ==> Settled(LoadLeaf(st, i))
  {
    hide LeafWf, Reread, WellFormed, ForestOk;
    LoadWf(st, i);
    LoadedLeaf(st, i);
    RereadIsEntries(st, st.leaves[i]);
    var st' := LoadLeaf(st, i);
    SameViews(st.leaves, st'.leaves);
    SameRefs(st, st');
    forall j | 0 <= j < |st'.leaves| ensures LeafBacked(st', st'.leaves[j]) && (Settled(st) ==> LeafSettled(st', st'.leaves[j])) {
      assert LeafBacked(st, st.leaves[j]) && (Settled(st) ==> LeafSettled(st, st.leaves[j]));
    }
  }

  lemma ViewsPut(ls: seq<LeafState>, i: nat, l: LeafState)
    requires i < |ls|
    ensures Views(ls[i := l]) == Views(ls)[i := View(l)]
  {
  }

  lemma LoadedLeaf(st: TreeState, i: nat)
    requires LeavesInv(st) && i < |st.leaves|
    ensures LeafOk(View(st.leaves[i])) && LeafInv(st, st.leaves[i]) && RootInv(st)
  {
  }

  /** Replacing one leaf by another version of itself, which is collected. */
  lemma PutKeeps(st: TreeState, i: nat, l: LeafState)
    requires LeavesInv(st) && i < |st.leaves| && l.id == st.leaves[i].id && l.listed == st.leaves[i].listed
    requires l.kvs == l.entries && LeafWf(st, l)
    requires ForestOk(Views(st.leaves)[i := View(l)])
    ensures var st' := CollectLeaf(PutLeaf(st, i, l), i);
            && LeavesInv(st') && st'.leaves == st.leaves[i := l.(listed := true)]
            && (Fresh(st) ==> Fresh(st')) && Views(st'.leaves) == Views(st.leaves)[i := View(l)]
  {
    hide LeafWf, ForestOk, WellFormed;
    ViewsPut(st.leaves, i, l);
    PutWf(st, i, l);
    ListedAlone(st.leaves[i := l], i);
    var st' := CollectLeaf(PutLeaf(st, i, l), i);
    SameViews(st.leaves[i := l], st'.leaves);
    forall j | 0 <= j < |st'.leaves| ensures LeafBacked(st', st'.leaves[j]) {
      assert LeafBacked(st, st.leaves[j]);
      assert j != i ==> st.leaves[j].id != st.leaves[i].id;
    }
  }

  /** Inserting a fitting, absent key into a loaded leaf adds exactly that entry. */
  lemma InsertKeeps(st: TreeState, i: nat, e: Entry)
    requires LeavesInv(st) && i < |st.leaves| && st.leaves[i].kvs == st.leaves[i].entries
    requires Fits(Views(st.leaves), i, e.key) && e.key !in ToMap(st.leaves[i].entries)
    requires |e.key| <= st.keyLimit && |e.value| < UINT32_RANGE
    ensures LeavesInv(InsertStep(st, i, e)) && (Fresh(st) ==> Fresh(InsertStep(st, i, e)))
    ensures InsertStep(st, i, e).leaves == st.leaves[i := WithEntry(st.leaves[i], e).(listed := true)]
    ensures Model(InsertStep(st, i, e)) == Model(st)[e.key := e.value]
  {
    hide DataCmp, ToMap, Flatten, Emplace, LeafOk, Fits, ForestOk, LeafWf, Sorted, CollectLeaf, WellFormed, Backed, Fresh;
    var l := st.leaves[i];
    LoadedLeaf(st, i);
    WithEntryWf(st, l, e);
    WithEntryFields(l, e);
    InsertIntoLeaf(Views(st.leaves), i, e, View(WithEntry(l, e)));
    PutKeeps(st, i, WithEntry(l, e));
  }

  lemma WithEntryFields(l: LeafState, e: Entry)
    requires LeafOk(View(l)) && l.kvs == l.entries && e.key !in ToMap(l.entries)
    ensures var l' := WithEntry(l, e);
            && l'.kvs == l'.entries == Emplace(l.entries, e)
            && l'.stat.minKey == (if Less(e.key, l.stat.minKey) then e.key else l.stat.minKey)
            && l'.stat.maxKey == (if Less(l.stat.maxKey, e.key) then e.key else l.stat.maxKey)
  {
    hide DataCmp, ToMap;
    EmplaceSpec(l.entries, e);
  }

  lemma SingletonForest(e: Entry)
    ensures ForestOk([LeafView([e], e.key, e.key)])
    ensures Contents([LeafView([e], e.key, e.key)]) == map[e.key := e.value]
  {
    FlattenSingle(LeafView([e], e.key, e.key));
    ToMapSingle(e);
  }

  lemma FirstKeeps(st: TreeState, e: Entry)
    requires LeavesInv(st) && st.leaves == []
    requires |e.key| <= st.keyLimit && |e.value| < UINT32_RANGE
    ensures var st' := InsertStep(NewLeaf(st), 0, e);
            && LeavesInv(st') && Model(st) == map[] && Model(st') == map[e.key := e.value] && (Fresh(st) ==> Fresh(st'))
            && st'.leaves == [WithEntry(NewLeaf(st).leaves[0], e).(listed := true)]
            && st'.leaves[0].kvs == st'.leaves[0].entries == [e]
  {
    hide LeafWf, WellFormed;
    SingletonForest(e);
    NewLeafWf(st);
    InsertWf(NewLeaf(st), 0, e);
    var st' := InsertStep(NewLeaf(st), 0, e);
    ListedAlone([WithEntry(NewLeaf(st).leaves[0], e)], 0);
    assert st'.leaves[0].kvs == [e];
    assert Views(st'.leaves) == [LeafView([e], e.key, e.key)];
  }

  ghost function SpliceTwo<T>(s: seq<T>, i: nat, l: T, r: T): (t: seq<T>)
    requires i < |s|
    ensures |t| == |s| + 1 && t[i] == l && t[i + 1] == r
    ensures forall j :: 0 <= j < i ==> t[j] == s[j]
    ensures forall j :: i + 1 < j < |t| ==> t[j] == s[j - 1]
  {
    s[..i] + [l, r] + s[i + 1..]
  }

  /** Splitting a loaded leaf moves no entry out of the tree; the right half goes directly
      behind the left one. */
  lemma SplitContent(st: TreeState, i: nat)
    requires ForestOk(Views(st.leaves)) && i < |st.leaves|
    requires st.leaves[i].kvs == st.leaves[i].entries && |st.leaves[i].kvs| >= 2
    ensures ForestOk(Views(SplitStep(st, i).leaves)) && Model(SplitStep(st, i)) == Model(st)
    ensures RightAt(st.leaves, i) == i + 1 && LeftAt(st.leaves, i) == i
    ensures SplitLeaves(st.leaves, i, st.maxId + 1)
            == SpliceTwo(st.leaves, i, LeftHalf(st.leaves[i]), RightHalf(st.leaves[i], st.maxId + 1))
  {
    hide LeafOk, ForestOk, Contents, LeftHalf, RightHalf, FirstAbove, SpliceTwo;
    var l, r := LeftHalf(st.leaves[i]), RightHalf(st.leaves[i], st.maxId + 1);
    HalfIds(st.leaves[i], st.maxId + 1);
    LeafOfForest(st.leaves, i);
    SplitForest(st.leaves, i, st.maxId + 1);
    BehindLeftHalf(st.leaves, i, l, r);
    SameViews(SpliceTwo(st.leaves, i, l, r), SplitStep(st, i).leaves);
  }

  lemma LeafOfForest(ls: seq<LeafState>, i: nat)
    requires ForestOk(Views(ls)) && i < |ls|
    ensures LeafOk(View(ls[i]))
  {
  }

  /** With a new id for the right half, all invariants stay. */
  lemma SplitKeeps(st: TreeState, i: nat)
    requires LeavesInv(st) && IdFree(st) && i < |st.leaves|
    requires st.leaves[i].kvs == st.leaves[i].entries && |st.leaves[i].kvs| >= 2
    ensures LeavesInv(SplitStep(st, i)) && Model(SplitStep(st, i)) == Model(st)
    ensures Fresh(st) ==> Fresh(SplitStep(st, i))
    ensures SplitStep(st, i).leaves
            == SpliceTwo(st.leaves, i, LeftHalf(st.leaves[i]).(listed := true),
                         RightHalf(st.leaves[i], st.maxId + 1).(listed := true))
    ensures SplitStep(st, i).unsaved == st.unsaved + {st.maxId + 1, st.leaves[i].id}
  {
    hide LeafWf, ForestOk, Contents, LeftHalf, RightHalf, SplitLeaves, RightAt, LeftAt, WellFormed, Backed;
    SplitWf(st, i);
    SplitContent(st, i);
    SplitIds(st, i);
    SplitBacked(st, i);
  }

  lemma SplitIds(st: TreeState, i: nat)
    requires DistinctIds(st.leaves) && IdFree(st) && i < |st.leaves| && |st.leaves[i].kvs| >= 2
    requires RightAt(st.leaves, i) == i + 1 && LeftAt(st.leaves, i) == i
    requires SplitLeaves(st.leaves, i, st.maxId + 1)
             == SpliceTwo(st.leaves, i, LeftHalf(st.leaves[i]), RightHalf(st.leaves[i], st.maxId + 1))
    ensures var st' := SplitStep(st, i);
            && DistinctIds(st'.leaves) && (Fresh(st) ==> Fresh(st'))
            && st'.leaves == SpliceTwo(st.leaves, i, LeftHalf(st.leaves[i]).(listed := true),
                                       RightHalf(st.leaves[i], st.maxId + 1).(listed := true))
            && st'.unsaved == st.unsaved + {st.maxId + 1, st.leaves[i].id} && st'.nodes == st.nodes
  {
    hide LeftHalf, RightHalf, SplitLeaves, RightAt, LeftAt, SpliceTwo;
    var l, r := LeftHalf(st.leaves[i]), RightHalf(st.leaves[i], st.maxId + 1);
    HalfIds(st.leaves[i], st.maxId + 1);
    var ls := SpliceTwo(st.leaves, i, l, r);
    SplicedIds(st.leaves, i, l, r);
    SplicedIds(st.leaves, i, l.(listed := true), r.(listed := true));
    ListedAlone(ls, i + 1);
    ListedAlone(ls[i + 1 := r.(listed := true)], i);
    assert ls[i + 1 := r.(listed := true)][i := l.(listed := true)]
           == SpliceTwo(st.leaves, i, l.(listed := true), r.(listed := true));
  }

  lemma SplicedIds(ls: seq<LeafState>, i: nat, l: LeafState, r: LeafState)
    requires DistinctIds(ls) && i < |ls| && l.id == ls[i].id && forall j :: 0 <= j < |ls| ==> ls[j].id != r.id
    ensures DistinctIds(SpliceTwo(ls, i, l, r))
    ensures (forall j :: 0 <= j < |ls| ==> ls[j].id < r.id) ==>
              forall j :: 0 <= j < |ls| + 1 ==> SpliceTwo(ls, i, l, r)[j].id <= r.id
  {
    hide SpliceTwo;
    var ms := SpliceTwo(ls, i, l, r);
    forall a | 0 <= a < |ms| ensures ms[a].id == if a == i + 1 then r.id else ls[if a <= i then a else a - 1].id {
    }
  }

  lemma SplitStepIs(st: TreeState, i: nat)
    requires i < |st.leaves| && |st.leaves[i].kvs| >= 2
    ensures var ms, at, la, st' := SplitLeaves(st.leaves, i, st.maxId + 1), RightAt(st.leaves, i), LeftAt(st.leaves, i),
                                   SplitStep(st, i);
            && at < |ms| && la < |ms| && st'.leaves == Listed(Listed(ms, at), la)
            && st'.unsaved == st.unsaved + {ms[at].id} + {ms[la].id}
            && st'.rootId == st.rootId && st'.rootStat == st.rootStat && st'.nodes == st.nodes && st'.maxId == st.maxId + 1
  {
    hide SplitLeaves, RightAt, LeftAt, Listed;
  }

  /** Collecting a leaf makes no difference to the split that follows. */
  lemma SplitOfCollected(st: TreeState, i: nat)
    requires i < |st.leaves| && |st.leaves[i].kvs| >= 2
    ensures SplitStep(CollectLeaf(st, i), i) == SplitStep(st, i)
  {
    hide FirstAbove, LeftHalf, RightHalf, SplitLeaves, Listed;
    var ls, ms, id := st.leaves, Listed(st.leaves, i), st.maxId + 1;
    HalvesListed(ls[i], id);
    HalvesListed(ls[i], 0);
    HalfIds(ls[i], id);
    SameAbove(ls[i := LeftHalf(ls[i])], ms[i := LeftHalf(ms[i])], RightHalf(ls[i], 0).stat.maxKey);
    CollectedHalves(ls, i, id);
    ListedTwice(SplitLeaves(ls, i, id), SplitLeaves(ms, i, id), RightAt(ls, i), LeftAt(ls, i));
  }

  lemma CollectedHalves(ls: seq<LeafState>, i: nat, id: nat)
    requires i < |ls| && |ls[i].kvs| >= 2
    ensures var a, b := SplitLeaves(ls, i, id), SplitLeaves(Listed(ls, i), i, id);
            && LeftAt(ls, i) < |a| && a[LeftAt(ls, i)].id == ls[i].id && RightAt(ls, i) < |a|
            && forall j :: 0 <= j < |a| ==>
                 b[j] == a[j].(listed := b[j].listed) && (a[j].id != ls[i].id ==> a[j].listed == b[j].listed)
  {
    hide FirstAbove, LeftHalf, RightHalf, Listed;
    var ms, at := Listed(ls, i), RightAt(ls, i);
    HalvesListed(ls[i], id);
    HalvesListed(ls[i], 0);
    HalfIds(ls[i], id);
    SameAbove(ls[i := LeftHalf(ls[i])], ms[i := LeftHalf(ms[i])], RightHalf(ls[i], 0).stat.maxKey);
    PutInSame(ls[i := LeftHalf(ls[i])], ms[i := LeftHalf(ms[i])], at, RightHalf(ls[i], id), ls[i].id);
  }

  lemma PutInSame(ls: seq<LeafState>, ms: seq<LeafState>, at: nat, r: LeafState, id: nat)
    requires at <= |ls| == |ms|
    requires forall j :: 0 <= j < |ls| ==>
               ms[j] == ls[j].(listed := ms[j].listed) && (ls[j].id != id ==> ls[j].listed == ms[j].listed)
    ensures var a, b := ls[..at] + [r] + ls[at..], ms[..at] + [r] + ms[at..];
            && |a| == |b| == |ls| + 1 && (forall j :: 0 <= j < at ==> a[j] == ls[j]) && (forall j :: at < j < |a| ==> a[j] == ls[j - 1])
            && forall j :: 0 <= j < |a| ==>
                 b[j] == a[j].(listed := b[j].listed) && (a[j].id != id ==> a[j].listed == b[j].listed)
  {
    PutIn(ls, at, r);
    PutIn(ms, at, r);
  }

  lemma PutIn<T>(s: seq<T>, at: nat, x: T)
    requires at <= |s|
    ensures var t := s[..at] + [x] + s[at..];
            && |t| == |s| + 1 && t[at] == x
            && (forall j :: 0 <= j < at ==> t[j] == s[j]) && (forall j :: at < j < |t| ==> t[j] == s[j - 1])
  {
  }

  lemma ListedTwice(a: seq<LeafState>, b: seq<LeafState>, r: nat, l: nat)
    requires |a| == |b| && l < |a| && r < |a|
    requires forall j :: 0 <= j < |a| ==>
               b[j] == a[j].(listed := b[j].listed) && (a[j].id != a[l].id ==> a[j].listed == b[j].listed)
    ensures Listed(Listed(a, r), l) == Listed(Listed(b, r), l)
  {
    hide Listed;
  }

  lemma HalvesListed(l: LeafState, id: nat)
    requires |l.kvs| >= 2
    ensures LeftHalf(l.(listed := true)) == LeftHalf(l).(listed := true)
    ensures RightHalf(l.(listed := true), id) == RightHalf(l, id)
  {
  }

  lemma {:induction false} SameAbove(ls: seq<LeafState>, ms: seq<LeafState>, key: Bytes)
    requires |ls| == |ms| && forall j :: 0 <= j < |ls| ==> ls[j].stat.maxKey == ms[j].stat.maxKey
    ensures FirstAbove(ls, key) == FirstAbove(ms, key)
  {
    if ls != [] { SameAbove(ls[1..], ms[1..], key); }
  }

  lemma SplitForest(ls: seq<LeafState>, i: nat, id: nat)
    requires ForestOk(Views(ls)) && i < |ls| && LeafOk(View(ls[i])) && ls[i].kvs == ls[i].entries && |ls[i].kvs| >= 2
    ensures var ls' := SpliceTwo(ls, i, LeftHalf(ls[i]), RightHalf(ls[i], id));
            ForestOk(Views(ls')) && Contents(Views(ls')) == Contents(Views(ls))
  {
    hide ToMap, Flatten, LeafOk, ForestOk, LeftHalf, RightHalf;
    HalvesOk(ls[i], id);
    SplitViews(ls, i, LeftHalf(ls[i]), RightHalf(ls[i], id));
  }

  lemma SplitViews(ls: seq<LeafState>, i: nat, l: LeafState, r: LeafState)
    requires i < |ls| && ForestOk(Views(ls)) && LeafOk(View(l)) && LeafOk(View(r))
    requires l.entries + r.entries == ls[i].entries
    ensures ForestOk(Views(SpliceTwo(ls, i, l, r)))
    ensures Contents(Views(SpliceTwo(ls, i, l, r))) == Contents(Views(ls))
  {
    hide DataCmp, ToMap, Flatten, Sorted;
    var vs := Views(ls);
    SplitLeaf(vs, i, View(l), View(r));
    assert Views(SpliceTwo(ls, i, l, r)) == vs[..i] + [View(l), View(r)] + vs[i + 1..];
  }

  lemma HalvesOk(p: LeafState, id: nat)
    requires LeafOk(View(p)) && p.kvs == p.entries && |p.kvs| >= 2
    ensures var l, r := LeftHalf(p), RightHalf(p, id);
            LeafOk(View(l)) && LeafOk(View(r)) && l.entries + r.entries == p.entries
  {
    hide DataCmp, PayloadSize, ToMap, Sorted;
    var s, n := p.kvs, Cut(|p.kvs|);
    assert s[..n] + s[n..] == s;
    SortedParts(s, n);
  }

  lemma SortedParts(s: seq<Entry>, n: nat)
    requires Sorted(s) && n <= |s|
    ensures Sorted(s[..n]) && Sorted(s[n..])
  {
    hide Sorted;
    SortedSlice(s, 0, n);
    SortedSlice(s, n, |s|);
    assert s[..n] == s[0..n] && s[n..] == s[n..|s|];
  }

  lemma BehindLeftHalf(ls: seq<LeafState>, i: nat, l: LeafState, r: LeafState)
    requires i < |ls| && ForestOk(Views(SpliceTwo(ls, i, l, r)))
    ensures var at := FirstAbove(ls[i := l], r.stat.maxKey);
            at == i + 1 && ls[i := l][..at] + [r] + ls[i := l][at..] == SpliceTwo(ls, i, l, r)
  {
    hide DataCmp, ToMap, Sorted, Flatten, LeafOk;
    var ms, vs, key := ls[i := l], Views(SpliceTwo(ls, i, l, r)), r.stat.maxKey;
    var at := FirstAbove(ms, key);
    MinMax(vs[i + 1]);
    forall j | 0 <= j <= i ensures Less(ms[j].stat.maxKey, key) {
      assert vs[j].maxKey == ms[j].stat.maxKey && Less(vs[j].maxKey, vs[i + 1].minKey);
    }
    forall j | i < j < |ms| ensures Less(key, ms[j].stat.maxKey) {
      MinMax(vs[j + 1]);
      assert vs[j + 1].maxKey == ms[j].stat.maxKey && Less(vs[i + 1].maxKey, vs[j + 1].minKey);
    }
    assert i < at;
    assert i + 1 < |ms| ==> Less(key, ms[i + 1].stat.maxKey);
    assert ms[..i + 1] + [r] + ms[i + 1..] == ls[..i] + [l, r] + ls[i + 1..];
  }

  lemma SplitBacked(st: TreeState, i: nat)
    requires Backed(st) && DistinctIds(st.leaves) && IdFree(st) && i < |st.leaves| && |st.leaves[i].kvs| >= 2
    requires var st' := SplitStep(st, i);
             && st'.leaves == SpliceTwo(st.leaves, i, LeftHalf(st.leaves[i]).(listed := true),
                                        RightHalf(st.leaves[i], st.maxId + 1).(listed := true))
             && st'.unsaved == st.unsaved + {st.maxId + 1, st.leaves[i].id} && st'.nodes == st.nodes
    ensures Backed(SplitStep(st, i))
  {
    hide SplitStep, SpliceTwo, PayloadSize, ToMap, DataCmp, Keys, Sorted, Sized;
    var st' := SplitStep(st, i);
    forall j | 0 <= j < |st'.leaves| ensures LeafBacked(st', st'.leaves[j]) {
      var k := if j <= i then j else j - 1;
      assert LeafBacked(st, st.leaves[k]);
      assert k != i ==> st.leaves[k].id != st.leaves[i].id;
    }
  }

  /** After an update the root spans its leaves and is unsaved. */
  lemma TouchRootKeeps(st: TreeState, isAdd: bool)
    requires LeavesInv(st) && st.leaves != []
    ensures Intact(TouchRoot(st, isAdd)) && (Fresh(st) ==> Fresh(TouchRoot(st, isAdd)))
    ensures Settled(st) ==> Settled(TouchRoot(st, isAdd))
  {
    hide ForestOk, RangeStat, ToMap, DataCmp, WellFormed, RootDue;
    var st' := TouchRoot(st, isAdd);
    RootDueIff(st, isAdd);
    forall j | 0 <= j < |st'.leaves| ensures LeafBacked(st', st'.leaves[j]) && (Settled(st) ==> LeafSettled(st', st'.leaves[j])) {
      LoadedLeaf(st, j);
      assert Settled(st) ==> LeafSettled(st, st.leaves[j]);
    }
  }

  /** Erasing one of several entries of a loaded leaf removes exactly that key. */
  lemma EraseKeeps(st: TreeState, i: nat, k: Bytes)
    requires LeavesInv(st) && i < |st.leaves| && st.leaves[i].kvs == st.leaves[i].entries
    requires k in ToMap(st.leaves[i].entries) && |st.leaves[i].entries| > 1
    ensures KeyErased(st, i, k).leaves[i].kvs != []
    ensures var st' := StatShrunk(KeyErased(st, i, k), i, k);
            && LeavesInv(st') && (Fresh(st) ==> Fresh(st')) && Model(st') == Model(st) - {k}
            && st'.leaves[i].kvs == st'.leaves[i].entries == Erase(st.leaves[i].entries, k)
            && st'.leaves[i].id == st.leaves[i].id && st'.unsaved == st.unsaved + {st.leaves[i].id}
            && forall j :: 0 <= j < |st.leaves| && j != i ==> st'.leaves[j] == st.leaves[j]
  {
    hide DataCmp, ToMap, Flatten, Sorted, LeafOk, ForestOk, Sized, Erase, LeafWf, WellFormed, Backed, Fresh, DelStat;
    LoadedLeaf(st, i);
    ErasedOk(st.leaves[i], k);
    var st1 := KeyErased(st, i, k);
    var l' := st1.leaves[i].(stat := DelStat(st1.leaves[i].stat, st1.leaves[i].kvs, k));
    ErasedWf(st, i, k, l');
    DeleteFromLeaf(Views(st.leaves), i, k, View(l'));
    PutKeeps(st, i, l');
    assert st1.leaves[i := l'] == st.leaves[i := l'];
  }

  lemma ErasedWf(st: TreeState, i: nat, k: Bytes, l': LeafState)
    requires WellFormed(st) && i < |st.leaves| && Erase(st.leaves[i].kvs, k) != []
    requires var l := KeyErased(st, i, k).leaves[i]; l' == l.(stat := DelStat(l.stat, l.kvs, k))
    ensures LeafWf(st, l')
  {
    hide LeafWf, DelStat, Erase;
    var st1 := KeyErased(st, i, k);
    KeyErasedWf(st, i, k);
    StatShrunkWf(st1, i, k);
    SameWf(StatShrunk(st1, i, k), st, StatShrunk(st1, i, k).leaves[i], l');
  }

  lemma ErasedOk(l: LeafState, k: Bytes)
    requires LeafOk(View(l)) && l.kvs == l.entries
    requires k in ToMap(l.entries) && |l.entries| > 1
    ensures var kvs := Erase(l.kvs, k);
            && kvs != []
            && DelStat(l.stat, kvs, k).minKey == (if k == l.stat.minKey then kvs[0].key else l.stat.minKey)
            && DelStat(l.stat, kvs, k).maxKey == (if k == l.stat.maxKey then kvs[|kvs| - 1].key else l.stat.maxKey)
  {
    hide DataCmp, ToMap;
    EraseSpec(l.entries, k);
    assert l.stat.minKey != l.stat.maxKey by { assert Less(l.entries[0].key, l.entries[|l.entries| - 1].key); }
  }

  /** A search by the maximal key of a leaf finds that leaf. */
  lemma {:induction false} FoundByMax(ls: seq<LeafState>, i: nat)
    requires ForestOk(Views(ls)) && i < |ls|
    ensures FirstMax(ls, ls[i].stat.maxKey) == i
  {
    hide DataCmp, ToMap, Sorted;
    var vs := Views(ls);
    MinMax(vs[i]);
    forall j | 0 <= j < i ensures Less(ls[j].stat.maxKey, ls[i].stat.maxKey) {
      assert Less(vs[j].maxKey, vs[i].minKey) && vs[j].maxKey == ls[j].stat.maxKey;
    }
  }

  /** The search depends on the maximal keys only. */
  lemma {:induction false} SameMaxima(ls: seq<LeafState>, ms: seq<LeafState>, key: Bytes)
    requires |ls| == |ms| && forall j :: 0 <= j < |ls| ==> ls[j].stat.maxKey == ms[j].stat.maxKey
    ensures FirstMax(ls, key) == FirstMax(ms, key)
  {
    if ls != [] { SameMaxima(ls[1..], ms[1..], key); }
  }

  /** Unlinking a leaf whose only key is `k` removes exactly `k`. */
  lemma UnlinkKeeps(st: TreeState, i: nat, k: Bytes)
    requires LeavesInv(st) && i < |st.leaves| && |st.leaves[i].entries| == 1 && st.leaves[i].entries[0].key == k
    ensures var st' := UnlinkStep(KeyErased(st, i, k), i);
            && LeavesInv(st') && (Fresh(st) ==> Fresh(st')) && Model(st') == Model(st) - {k}
            && st'.leaves == st.leaves[..i] + st.leaves[i + 1..]
            && st'.unsaved == st.unsaved - {st.leaves[i].id}
  {
    hide DataCmp, ToMap, Flatten, Sorted, ForestOk, LeafWf, UnlinkStep, KeyErased, LeafBacked, WellFormed;
    var st', ls := UnlinkStep(KeyErased(st, i, k), i), st.leaves;
    LoadedLeaf(st, i);
    DropSingletonLeaf(Views(ls), i);
    KeyErasedWf(st, i, k);
    UnlinkWf(KeyErased(st, i, k), i);
    UnlinkedFields(st, i, k);
    assert Views(st'.leaves) == Views(ls)[..i] + Views(ls)[i + 1..];
    UnlinkBacked(st, st', i);
  }

  lemma UnlinkedFields(st: TreeState, i: nat, k: Bytes)
    requires ForestOk(Views(st.leaves)) && DistinctIds(st.leaves) && i < |st.leaves|
    ensures UnlinkStep(KeyErased(st, i, k), i)
            == st.(leaves := st.leaves[..i] + st.leaves[i + 1..], unsaved := st.unsaved - {st.leaves[i].id})
  {
    hide DataCmp, ForestOk, FirstMax, Erase;
    var st1, ls := KeyErased(st, i, k), st.leaves;
    FoundByMax(ls, i);
    SameMaxima(ls, st1.leaves, ls[i].stat.maxKey);
    var ms := Unlisted(st1.leaves, ls[i].id);
    assert ms[..i] + ms[i + 1..] == ls[..i] + ls[i + 1..];
  }

  lemma UnlinkBacked(st: TreeState, st': TreeState, i: nat)
    requires DistinctIds(st.leaves) && Backed(st) && i < |st.leaves| && st'.leaves == st.leaves[..i] + st.leaves[i + 1..]
    requires st'.nodes == st.nodes && st'.unsaved == st.unsaved - {st.leaves[i].id}
    ensures Backed(st')
  {
    forall j | 0 <= j < |st'.leaves| ensures LeafBacked(st', st'.leaves[j]) {
      var k := if j < i then j else j + 1;
      assert st'.leaves[j] == st.leaves[k] && LeafBacked(st, st.leaves[k]);
    }
  }

  lemma ResetRootKeeps(st: TreeState)
    requires LeavesInv(st) && st.leaves == []
    ensures Intact(ResetRoot(st)) && (Fresh(st) ==> Fresh(ResetRoot(st))) && Settled(ResetRoot(st))
  {
    hide StoredOk;
  }

  /** A save makes storage agree with every reachable node. */
  lemma SaveKeeps(st: TreeState)
    requires Intact(st)
    ensures Intact(AfterSave(st)) && Settled(AfterSave(st)) && Views(AfterSave(st).leaves) == Views(st.leaves)
    ensures Model(AfterSave(st)) == Model(st)
    ensures Fresh(st) ==> Fresh(AfterSave(st))
    ensures forall i :: 0 <= i < |st.leaves| ==> st.leaves[i].id in AfterSave(st).nodes
  {
    hide LeafWf, ForestOk, Contents, SavedOf, WellFormed;
    var st' := AfterSave(st);
    SaveWf(st);
    SameRefs(st, st');
    SameViews(st.leaves, st'.leaves);
    forall j | 0 <= j < |st'.leaves| ensures LeafBacked(st', st'.leaves[j]) && st'.leaves[j].id in st'.nodes {
      SavedBacked(st, j);
    }
    SaveSyncs(st);
    if Fresh(st) { SaveFresh(st); }
  }

  lemma SavedBacked(st: TreeState, i: nat)
    requires LeavesInv(st) && i < |st.leaves|
    ensures var l, st' := st.leaves[i], AfterSave(st);
            l.id in st'.nodes && st'.nodes[l.id] == SavedLeaf(l.entries) && (l.kvs == [] || l.kvs == l.entries)
  {
    hide LeafWf, ForestOk, SavedOf;
    assert LeafWf(st, st.leaves[i]) && LeafBacked(st, st.leaves[i]);
    OwnId(st, st.leaves[i]);
    ListedIff(st, i);
    if st.leaves[i].listed { SavedLeafOf(st, i); }
  }

  lemma OwnId(st: TreeState, l: LeafState)
    requires LeafWf(st, l)
    ensures l.id != st.rootId
  {
  }

  lemma SaveFresh(st: TreeState)
    requires WellFormed(st) && Fresh(st)
    ensures Fresh(AfterSave(st))
  {
    hide LeafWf, SavedOf, StoredOk;
    forall k | k in st.unsaved ensures k <= st.maxId {
      if k != st.rootId { var i :| 0 <= i < |st.leaves| && st.leaves[i].listed && st.leaves[i].id == k; }
    }
  }

  lemma SavedRootOf(st: TreeState)
    ensures SavedOf(st, st.rootId) == RootRecord(st)
  {
  }

  /** Saving and re-opening work for every well-formed tree. */
  lemma ReopenWf(st: TreeState, maxId: nat)
    requires WellFormed(st) && RootSynced(st) && st.unsaved == {} && st.rootId <= maxId
    ensures WellFormed(ReopenStep(st, maxId)) && RootSynced(ReopenStep(st, maxId))
  {
    hide StoredOk;
    var st' := ReopenStep(st, maxId);
    SameRefs(st, st');
    forall j | 0 <= j < |st'.leaves| ensures LeafWf(st', st'.leaves[j]) { assert LeafWf(st, st.leaves[j]); }
  }

  lemma SaveSyncs(st: TreeState)
    requires RootSynced(st)
    ensures RootSynced(AfterSave(st))
  {
    hide SavedOf;
    SameRefs(st, AfterSave(st));
    SavedRootOf(st);
  }

  /** Re-opening a saved tree keeps every entry and every leaf's range, whatever the maximum
      from which ids go on. */
  lemma ReopenKeeps(st: TreeState, maxId: nat)
    requires Intact(st) && st.unsaved == {} && st.rootId <= maxId
    ensures Intact(ReopenStep(st, maxId)) && Settled(ReopenStep(st, maxId))
    ensures Views(ReopenStep(st, maxId).leaves) == Views(st.leaves) && Model(ReopenStep(st, maxId)) == Model(st)
    ensures Fresh(st) && st.maxId <= maxId ==> Fresh(ReopenStep(st, maxId))
  {
    hide Contents, WellFormed, ForestOk;
    var st' := ReopenStep(st, maxId);
    ReopenWf(st, maxId);
    forall j | 0 <= j < |st'.leaves| ensures LeafBacked(st', st'.leaves[j]) && View(st'.leaves[j]) == View(st.leaves[j]) {
      assert LeafBacked(st, st.leaves[j]);
    }
    SameViews(st.leaves, st'.leaves);
  }
}
