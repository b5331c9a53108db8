/** Statements that delete any list of keys on a saved tree, absent and repeated ones included. Every
    visit of a leaf brings back what it was saved with and takes out the key it came for: only
    the key of the last visit stays away. */
module KeyVisits {
  import opened DataOrder
  import opened Options
  import opened OrderedMap
  import opened LeafCodec
  import opened Forest
  import opened TreeStates
  import opened TreeOps
  import opened Statements
  import opened UnsavedRows
  import opened UnsavedKeys

  // ---- the last visit -------------------------------------------------------------

  ghost function StateAt(st: TreeState, keys: seq<Bytes>): TreeState { AfterKeys(st, keys).0 }

  /** The last key of the statement that was searched in the leaf with this id. */
  ghost function LastVisit(st: TreeState, keys: seq<Bytes>, id: nat): Option<Bytes> {
    if keys == [] then None
    else
      var front, key := keys[..|keys| - 1], keys[|keys| - 1];
      if FoundId(StateAt(st, front), key) == id then Some(key) else LastVisit(st, front, id)
  }

  lemma {:induction false} VisitedByOne(st: TreeState, keys: seq<Bytes>, id: nat)
    ensures LastVisit(st, keys, id).Some? ==> LastVisit(st, keys, id).value in keys
  {
    hide FoundId;
    if keys != [] { VisitedByOne(st, keys[..|keys| - 1], id); }
  }

  lemma {:induction false} AfterSnoc(st: TreeState, keys: seq<Bytes>, key: Bytes)
    requires AfterKeys(st, keys).1 == Ok
    ensures AfterKeys(st, keys + [key]) == (AfterDelete(StateAt(st, keys), key), DeleteStatus(StateAt(st, keys), key))
    decreases |keys|
  {
    hide AfterDelete, DeleteStatus;
    if keys == [] {
      assert keys + [key] == [key] && [key][1..] == [];
      assert AfterKeys(AfterDelete(st, key), []) == (AfterDelete(st, key), Ok);
    } else {
      assert (keys + [key])[0] == keys[0] && (keys + [key])[1..] == keys[1..] + [key];
      AfterSnoc(AfterDelete(st, keys[0]), keys[1..], key);
    }
  }

  // ---- what the leaves hold on the way ----------------------------------------------

  /** A leaf that was saved with `es` and last visited for `last`. */
  ghost predicate Stage(es: seq<Entry>, l: LeafState, last: Option<Bytes>) {
    match last
    case None => (l.kvs == [] || l.kvs == es) && l.entries == es
    case Some(key) => l.kvs == l.entries == Erase(es, key)
  }

  /** Its range stays within the one it was saved with. */
  ghost predicate Inside(p: LeafState, l: LeafState) {
    && LessEq(p.stat.minKey, l.stat.minKey) && LessEq(l.stat.maxKey, p.stat.maxKey)
    && (|p.entries| == 1 ==> SameRange(p, l))
  }

  /** The leaves of `st'` are those of the saved tree at `at`, in order; only leaves of one key are
      gone, and exactly those whose key was deleted. */
  ghost predicate Visited(st: TreeState, keys: seq<Bytes>, at: seq<nat>, st': TreeState) {
    && |at| == |st'.leaves| && (forall j :: 0 <= j < |at| ==> at[j] < |st.leaves|)
    && (forall i, j :: 0 <= i < j < |at| ==> at[i] < at[j])
    && st'.nodes == st.nodes && st'.rootId == st.rootId
    && (forall j :: 0 <= j < |at| ==> VisitedLeaf(st, keys, st.leaves[at[j]], st'.leaves[j]))
    && (forall i :: 0 <= i < |st.leaves| ==>
          (i in at <==> |st.leaves[i].entries| >= 2 || st.leaves[i].entries == [] || st.leaves[i].entries[0].key !in keys))
  }

  ghost predicate VisitedLeaf(st: TreeState, keys: seq<Bytes>, p: LeafState, l: LeafState) {
    && l.id == p.id && Stage(p.entries, l, LastVisit(st, keys, p.id)) && Inside(p, l)
    && (LastVisit(st, keys, p.id).None? ==> SameRange(p, l))
  }

  ghost predicate SameRange(p: LeafState, l: LeafState) {
    l.stat.minKey == p.stat.minKey && l.stat.maxKey == p.stat.maxKey
  }

  lemma VisitedIds(st: TreeState, keys: seq<Bytes>, at: seq<nat>, st': TreeState)
    requires DistinctIds(st.leaves) && Visited(st, keys, at, st')
    ensures DistinctIds(st'.leaves)
  {
    hide Stage, Inside;
    forall i, j | 0 <= i < j < |st'.leaves| ensures st'.leaves[i].id != st'.leaves[j].id {
      assert VisitedLeaf(st, keys, st.leaves[at[i]], st'.leaves[i]) && VisitedLeaf(st, keys, st.leaves[at[j]], st'.leaves[j]);
    }
  }

  /** Re-reading brings all back. */
  lemma RereadStage(st: TreeState, l: LeafState, es: seq<Entry>, last: Option<Bytes>)
    requires Sorted(es) && l.id in st.nodes && st.nodes[l.id] == SavedLeaf(es) && Stage(es, l, last)
    ensures Reread(st, l) == es
  {
    hide DataCmp, ToMap, Erase, EmplaceAll;
    match last {
      case None => if l.kvs == [] { EmplaceAllIntoEmpty(es); } else { MergeKnown(es, es); }
      case Some(key) => RereadRestores(st.(leaves := [l]), 0, es, key);
    }
  }

  /** A key of a leaf whose range is as it was is searched there. */
  lemma OwnRangeFound(st: TreeState, keys: seq<Bytes>, at: seq<nat>, st': TreeState, j: nat, key: Bytes)
    requires ForestOk(Views(st.leaves)) && Visited(st, keys, at, st') && j < |at|
    requires SameRange(st.leaves[at[j]], st'.leaves[j]) && Spans(st.leaves[at[j]], key)
    ensures Find(st'.leaves, key) == j
  {
    hide DataCmp, Stage, ForestOk, LastVisit;
    forall n | 0 <= n < j ensures Less(st'.leaves[n].stat.maxKey, key) {
      assert VisitedLeaf(st, keys, st.leaves[at[n]], st'.leaves[n]);
      RangesInOrder(st.leaves, at[n], at[j]);
      Below(st'.leaves[n].stat.maxKey, st.leaves[at[n]].stat.maxKey, st.leaves[at[j]].stat.minKey, key);
    }
  }

  lemma RangesInOrder(ls: seq<LeafState>, a: nat, b: nat)
    requires ForestOk(Views(ls)) && a < b < |ls|
    ensures Less(ls[a].stat.maxKey, ls[b].stat.minKey)
  {
    hide DataCmp, LeafOk;
    assert Less(Views(ls)[a].maxKey, Views(ls)[b].minKey);
  }

  lemma Below(a: Bytes, b: Bytes, c: Bytes, d: Bytes)
    requires LessEq(a, b) && Less(b, c) && LessEq(c, d)
    ensures Less(a, d)
  {
  }

  lemma SingleFound(st: TreeState, keys: seq<Bytes>, at: seq<nat>, st': TreeState, j: nat, key: Bytes)
    requires ForestOk(Views(st.leaves)) && Visited(st, keys, at, st') && j < |at|
    requires |st.leaves[at[j]].entries| == 1 && st.leaves[at[j]].entries[0].key == key
    ensures Find(st'.leaves, key) == j
  {
    hide DataCmp, Stage, Sorted, LastVisit;
    assert VisitedLeaf(st, keys, st.leaves[at[j]], st'.leaves[j]) && LeafOk(Views(st.leaves)[at[j]]);
    OwnRangeFound(st, keys, at, st', j, key);
  }

  // ---- one more key ------------------------------------------------------------------

  lemma NewLastVisit(st: TreeState, keys: seq<Bytes>, key: Bytes, id: nat)
    ensures LastVisit(st, keys + [key], id)
            == if FoundId(StateAt(st, keys), key) == id then Some(key) else LastVisit(st, keys, id)
  {
    hide FoundId, StateAt;
    assert (keys + [key])[..|keys|] == keys;
  }

  /** The range left by an erased boundary key is one of keys the leaf was saved with. */
  lemma InsideShrunk(p: LeafState, l: LeafState, key: Bytes, stat: NodeStatistics)
    requires LeafOk(View(p)) && Inside(p, l) && |p.entries| >= 2 && Erase(p.entries, key) != []
    requires stat == DelStat(l.stat, Erase(p.entries, key), key)
    ensures Inside(p, l.(stat := stat))
  {
    hide DataCmp, ToMap, Erase;
    var es, rest := p.entries, Erase(p.entries, key);
    EraseSpec(es, key);
    MapAt(rest, 0);
    MapAt(rest, |rest| - 1);
    LeafRange(View(p), rest[0].key);
    LeafRange(View(p), rest[|rest| - 1].key);
  }

  /** The only entry of a leaf is deleted. */
  lemma SingleDeleted(st: TreeState, j: nat, e: Entry)
    requires DistinctIds(st.leaves) && j == Find(st.leaves, e.key) < |st.leaves|
    requires Reread(st, st.leaves[j]) == [e] && st.leaves[j].id in st.nodes && st.leaves[j].stat.maxKey == e.key
    ensures var st' := AfterDelete(st, e.key);
            && DeleteStatus(st, e.key) == Ok && st'.leaves == st.leaves[..j] + st.leaves[j + 1..]
            && st'.nodes == st.nodes && st'.rootId == st.rootId
  {
    hide DataCmp, Reread, RangeStat, FirstMax, UnlinkStep;
    var st1 := LoadLeaf(st, j);
    var st2 := KeyErased(st1, j, e.key);
    assert st2.leaves[j].kvs == [];
    SameMaxima(st.leaves, st2.leaves, e.key);
    UnlinkedOne(st, j, st2);
  }

  lemma UnlinkedOne(st: TreeState, j: nat, st2: TreeState)
    requires DistinctIds(st.leaves) && j < |st.leaves| == |st2.leaves|
    requires FirstMax(st2.leaves, st2.leaves[j].stat.maxKey) == j && st2.leaves[j].id == st.leaves[j].id
    requires forall n :: 0 <= n < |st.leaves| && n != j ==> st2.leaves[n] == st.leaves[n]
    ensures UnlinkStep(st2, j).leaves == st.leaves[..j] + st.leaves[j + 1..]
    ensures UnlinkStep(st2, j).nodes == st2.nodes && UnlinkStep(st2, j).rootId == st2.rootId
  {
    hide FirstMax;
    var ms := Unlisted(st2.leaves, st2.leaves[j].id);
    assert ms[..j] + ms[j + 1..] == st.leaves[..j] + st.leaves[j + 1..];
  }

  ghost predicate Without(at: seq<nat>, at': seq<nat>, j: nat)
    requires j < |at|
  {
    at' == at[..j] + at[j + 1..]
  }

  /** What the statement is about. */
  ghost predicate Saved(st: TreeState) { Intact(st) && st.unsaved == {} }

  lemma SavedParts(st: TreeState, i: nat)
    requires Saved(st) && i < |st.leaves|
    ensures ForestOk(Views(st.leaves)) && DistinctIds(st.leaves) && LeafOk(View(st.leaves[i])) && st.leaves[i].id != st.rootId
    ensures st.leaves[i].id in st.nodes && st.nodes[st.leaves[i].id] == SavedLeaf(st.leaves[i].entries)
  {
    hide LeafWf, RootInv, ListedOk, RootSynced;
    IntactParts(st);
    WfLeaf(st, i);
    OwnId(st, st.leaves[i]);
    SavedLeafIs(st, i);
  }

  /** Nothing is searched: nothing changes. */
  lemma NoVisit(st: TreeState, keys: seq<Bytes>, at: seq<nat>, key: Bytes)
    requires Saved(st) && Visited(st, keys, at, StateAt(st, keys))
    requires var s := StateAt(st, keys); Find(s.leaves, key) == |s.leaves|
    ensures var s := StateAt(st, keys);
            AfterDelete(s, key) == s && DeleteStatus(s, key) == Ok && Visited(st, keys + [key], at, s)
  {
    hide Saved, StateAt, Find, AfterDelete, DeleteStatus, Inside, Stage, LastVisit;
    var s := StateAt(st, keys);
    NowhereFound(s, key);
    forall j | 0 <= j < |at| ensures VisitedLeaf(st, keys + [key], st.leaves[at[j]], s.leaves[j]) {
      SavedParts(st, at[j]);
      NewLastVisit(st, keys, key, st.leaves[at[j]].id);
      assert VisitedLeaf(st, keys, st.leaves[at[j]], s.leaves[j]);
    }
    forall i | 0 <= i < |st.leaves|
      ensures i in at <==> |st.leaves[i].entries| >= 2 || st.leaves[i].entries == [] || st.leaves[i].entries[0].key !in keys + [key]
    {
      if i in at && |st.leaves[i].entries| == 1 && st.leaves[i].entries[0].key == key {
        SavedParts(st, i);
        var j :| 0 <= j < |at| && at[j] == i;
        SingleFound(st, keys, at, s, j, key);
      }
    }
  }

  /** A leaf of several keys is visited. */
  lemma VisitLarge(st: TreeState, keys: seq<Bytes>, at: seq<nat>, key: Bytes, j: nat)
    requires Saved(st) && Visited(st, keys, at, StateAt(st, keys)) && j < |at| && |st.leaves[at[j]].entries| >= 2
    requires j == Find(StateAt(st, keys).leaves, key)
    ensures var s := StateAt(st, keys); DeleteStatus(s, key) == Ok && Visited(st, keys + [key], at, AfterDelete(s, key))
  {
    hide Saved, StateAt, Find, FoundId, AfterDelete, DeleteStatus, Stage, Inside, LastVisit, Erase, Reread;
    var s, p := StateAt(st, keys), st.leaves[at[j]];
    SavedParts(st, at[j]);
    VisitedIds(st, keys, at, s);
    assert VisitedLeaf(st, keys, p, s.leaves[j]);
    RereadStage(s, s.leaves[j], p.entries, LastVisit(st, keys, p.id));
    RestoredDelete(s, j, p.entries, key);
    FoundIdAt(s, key);
    var s' := AfterDelete(s, key);
    forall n | 0 <= n < |at| ensures VisitedLeaf(st, keys + [key], st.leaves[at[n]], s'.leaves[n]) {
      assert VisitedLeaf(st, keys, st.leaves[at[n]], s.leaves[n]);
      if n == j {
        VisitedHere(st, keys, key, p, s.leaves[j], s'.leaves[j]);
      } else {
        VisitedElsewhere(st, keys, key, st.leaves[at[n]], s.leaves[n]);
      }
    }
    SinglesStay(st, keys, at, key, j);
  }

  lemma VisitedHere(st: TreeState, keys: seq<Bytes>, key: Bytes, p: LeafState, l: LeafState, l': LeafState)
    requires VisitedLeaf(st, keys, p, l) && LeafOk(View(p)) && |p.entries| >= 2 && FoundId(StateAt(st, keys), key) == p.id
    requires Erase(p.entries, key) != [] && l'.id == l.id && l'.kvs == l'.entries == Erase(p.entries, key)
    requires l'.stat == l.stat || l'.stat == DelStat(l.stat, Erase(p.entries, key), key)
    ensures VisitedLeaf(st, keys + [key], p, l')
  {
    hide FoundId, StateAt, LastVisit, Erase, DelStat, Sorted;
    NewLastVisit(st, keys, key, p.id);
    InsideShrunk(p, l, key, DelStat(l.stat, Erase(p.entries, key), key));
  }

  /** The visit of a leaf of several keys is none of a leaf of one. */
  lemma SinglesStay(st: TreeState, keys: seq<Bytes>, at: seq<nat>, key: Bytes, j: nat)
    requires Saved(st) && Visited(st, keys, at, StateAt(st, keys)) && j < |at| && |st.leaves[at[j]].entries| >= 2
    requires j == Find(StateAt(st, keys).leaves, key)
    ensures forall i :: 0 <= i < |st.leaves| ==>
              (i in at <==> |st.leaves[i].entries| >= 2 || st.leaves[i].entries == [] || st.leaves[i].entries[0].key !in keys + [key])
  {
    hide Saved, StateAt, Find, VisitedLeaf;
    forall i | 0 <= i < |st.leaves|
      ensures i in at <==> |st.leaves[i].entries| >= 2 || st.leaves[i].entries == [] || st.leaves[i].entries[0].key !in keys + [key]
    {
      if i in at && |st.leaves[i].entries| == 1 && st.leaves[i].entries[0].key == key {
        SavedParts(st, i);
        var n :| 0 <= n < |at| && at[n] == i;
        SingleFound(st, keys, at, StateAt(st, keys), n, key);
      }
    }
  }

  /** The leaf of one key is visited: for that key. */
  lemma VisitSingle(st: TreeState, keys: seq<Bytes>, at: seq<nat>, key: Bytes, j: nat) returns (at': seq<nat>)
    requires Saved(st) && Visited(st, keys, at, StateAt(st, keys)) && j < |at| && |st.leaves[at[j]].entries| == 1
    requires j == Find(StateAt(st, keys).leaves, key)
    ensures var s := StateAt(st, keys); DeleteStatus(s, key) == Ok && Visited(st, keys + [key], at', AfterDelete(s, key))
  {
    hide Saved, StateAt, FoundId, AfterDelete, DeleteStatus, Stage, LastVisit, Reread;
    var s, p := StateAt(st, keys), st.leaves[at[j]];
    SavedParts(st, at[j]);
    VisitedIds(st, keys, at, s);
    assert VisitedLeaf(st, keys, p, s.leaves[j]);
    RereadStage(s, s.leaves[j], p.entries, LastVisit(st, keys, p.id));
    OneInRange(s.leaves, key, j);
    SingleDeleted(s, j, p.entries[0]);
    FoundIdAt(s, key);
    at' := at[..j] + at[j + 1..];
    SingleGone(st, keys, at, key, j, at');
  }

  lemma OneInRange(ls: seq<LeafState>, key: Bytes, j: nat)
    requires j == Find(ls, key) < |ls| && ls[j].stat.minKey == ls[j].stat.maxKey
    ensures ls[j].stat.maxKey == key
  {
    hide FirstMax;
  }

  lemma SingleGone(st: TreeState, keys: seq<Bytes>, at: seq<nat>, key: Bytes, j: nat, at': seq<nat>)
    requires Saved(st) && Visited(st, keys, at, StateAt(st, keys)) && j < |at| && at' == at[..j] + at[j + 1..]
    requires |st.leaves[at[j]].entries| == 1 && st.leaves[at[j]].entries[0].key == key
    requires FoundId(StateAt(st, keys), key) == st.leaves[at[j]].id
    requires var s := StateAt(st, keys); var s' := AfterDelete(s, key);
             s'.leaves == s.leaves[..j] + s.leaves[j + 1..] && s'.nodes == s.nodes && s'.rootId == s.rootId
    ensures Visited(st, keys + [key], at', AfterDelete(StateAt(st, keys), key))
  {
    hide Saved, StateAt, FoundId, AfterDelete, VisitedLeaf, LeafOk, ForestOk;
    var s, s' := StateAt(st, keys), AfterDelete(StateAt(st, keys), key);
    SavedParts(st, at[j]);
    forall n | 0 <= n < |at'| ensures at'[n] == at[if n < j then n else n + 1] && s'.leaves[n] == s.leaves[if n < j then n else n + 1] {
    }
    forall n | 0 <= n < |at'| ensures VisitedLeaf(st, keys + [key], st.leaves[at'[n]], s'.leaves[n]) {
      var k := if n < j then n else n + 1;
      VisitedElsewhere(st, keys, key, st.leaves[at[k]], s.leaves[k]);
    }
    forall i | 0 <= i < |st.leaves|
      ensures i in at' <==> |st.leaves[i].entries| >= 2 || st.leaves[i].entries == [] || st.leaves[i].entries[0].key !in keys + [key]
    {
      StillAt(at, j, i);
      SavedParts(st, i);
      if i != at[j] && |st.leaves[i].entries| == 1 { OneLeafPerKey(Views(st.leaves), at[j], i); }
    }
  }

  lemma VisitedElsewhere(st: TreeState, keys: seq<Bytes>, key: Bytes, p: LeafState, l: LeafState)
    requires VisitedLeaf(st, keys, p, l) && FoundId(StateAt(st, keys), key) != p.id
    ensures VisitedLeaf(st, keys + [key], p, l)
  {
    hide FoundId, StateAt, Stage, Inside, LastVisit;
    NewLastVisit(st, keys, key, p.id);
  }

  lemma StillAt(at: seq<nat>, j: nat, i: nat)
    requires j < |at| && forall m, n :: 0 <= m < n < |at| ==> at[m] < at[n]
    ensures i in at[..j] + at[j + 1..] <==> i in at && i != at[j]
  {
    var rest := at[..j] + at[j + 1..];
    if i in at && i != at[j] {
      var n :| 0 <= n < |at| && at[n] == i;
      assert rest[if n < j then n else n - 1] == i;
    }
    if i in rest {
      var n :| 0 <= n < |rest| && rest[n] == i;
      assert at[if n < j then n else n + 1] == i;
    }
  }

  lemma OneLeafPerKey(vs: seq<LeafView>, a: nat, b: nat)
    requires ForestOk(vs) && a < |vs| && b < |vs| && a != b
    ensures vs[a].entries[0].key != vs[b].entries[0].key
  {
    hide DataCmp, Sorted;
    MinMax(vs[a]);
    MinMax(vs[b]);
    assert LeafOk(vs[a]) && LeafOk(vs[b]);
    assert Less(vs[a].maxKey, vs[b].minKey) || Less(vs[b].maxKey, vs[a].minKey);
  }

  /** All keys of a statement. */
  lemma {:induction false} AllVisits(st: TreeState, keys: seq<Bytes>) returns (at: seq<nat>)
    requires Saved(st)
    ensures AfterKeys(st, keys).1 == Ok && Visited(st, keys, at, StateAt(st, keys))
    decreases |keys|
  {
    hide Saved, Visited, AfterDelete, DeleteStatus, Find;
    if keys == [] {
      at := seq(|st.leaves|, i requires 0 <= i < |st.leaves| => i);
      NotVisited(st, at);
    } else {
      var front, key := keys[..|keys| - 1], keys[|keys| - 1];
      at := AllVisits(st, front);
      AfterSnoc(st, front, key);
      assert front + [key] == keys;
      at := OneVisit(st, front, at, key);
    }
  }

  lemma OneVisit(st: TreeState, keys: seq<Bytes>, at: seq<nat>, key: Bytes) returns (at': seq<nat>)
    requires Saved(st) && Visited(st, keys, at, StateAt(st, keys))
    ensures var s := StateAt(st, keys); DeleteStatus(s, key) == Ok && Visited(st, keys + [key], at', AfterDelete(s, key))
  {
    hide Saved, StateAt, Find, AfterDelete, DeleteStatus, VisitedLeaf;
    var j := Find(StateAt(st, keys).leaves, key);
    if j == |at| {
      NoVisit(st, keys, at, key);
      at' := at;
    } else {
      SavedParts(st, at[j]);
      if |st.leaves[at[j]].entries| >= 2 {
        VisitLarge(st, keys, at, key, j);
        at' := at;
      } else {
        at' := VisitSingle(st, keys, at, key, j);
      }
    }
  }

  lemma NotVisited(st: TreeState, at: seq<nat>)
    requires Saved(st) && at == seq(|st.leaves|, i requires 0 <= i < |st.leaves| => i)
    ensures Visited(st, [], at, StateAt(st, []))
  {
    hide Saved, Sorted;
    forall j | 0 <= j < |at| ensures VisitedLeaf(st, [], st.leaves[at[j]], st.leaves[j]) {
      SavedParts(st, j);
      SavedHeld(st, j);
    }
    forall i | 0 <= i < |st.leaves| ensures i in at { assert at[i] == i; }
  }

  lemma SavedHeld(st: TreeState, j: nat)
    requires Saved(st) && j < |st.leaves|
    ensures st.leaves[j].kvs == [] || st.leaves[j].kvs == st.leaves[j].entries
  {
    hide WellFormed, ForestOk, RootSynced;
    assert LeafBacked(st, st.leaves[j]);
  }

  // ---- what is left -------------------------------------------------------------------

  /** What a leaf still holds. */
  lemma StageContent(p: LeafState, l: LeafState, last: Option<Bytes>)
    requires LeafOk(View(p)) && Stage(p.entries, l, last)
    requires |p.entries| == 1 ==> last != Some(p.entries[0].key)
    ensures l.entries != [] && Sorted(l.entries)
    ensures ToMap(l.entries) == if last.None? then ToMap(p.entries) else ToMap(p.entries) - {last.value}
  {
    hide DataCmp, ToMap, Erase, Sorted;
    match last {
      case None =>
      case Some(key) =>
        EraseSpec(p.entries, key);
        StillHolds(p.entries, key);
    }
  }

  lemma StillHolds(es: seq<Entry>, key: Bytes)
    requires es != [] && (|es| == 1 ==> es[0].key != key)
    ensures Erase(es, key) != []
  {
  }

  /** The leaves with the ranges of what they hold. */
  ghost function Tight(ls: seq<LeafState>): (vs: seq<LeafView>)
    requires forall j :: 0 <= j < |ls| ==> ls[j].entries != []
    ensures |vs| == |ls|
    ensures forall j :: 0 <= j < |ls| ==>
              vs[j] == LeafView(ls[j].entries, ls[j].entries[0].key, ls[j].entries[|ls[j].entries| - 1].key)
  {
    seq(|ls|, j requires 0 <= j < |ls| =>
      LeafView(ls[j].entries, ls[j].entries[0].key, ls[j].entries[|ls[j].entries| - 1].key))
  }

  lemma {:induction false} SameEntriesFlatten(vs: seq<LeafView>, ws: seq<LeafView>)
    requires |vs| == |ws| && forall j :: 0 <= j < |vs| ==> vs[j].entries == ws[j].entries
    ensures Flatten(vs) == Flatten(ws)
  {
    if vs != [] { SameEntriesFlatten(vs[1..], ws[1..]); }
  }

  /** What leaf `j` still holds, of what it was saved with. */
  lemma LeafLeft(st: TreeState, keys: seq<Bytes>, at: seq<nat>, st': TreeState, j: nat)
    requires Saved(st) && Visited(st, keys, at, st') && j < |at|
    ensures var p, l := st.leaves[at[j]], st'.leaves[j]; var last := LastVisit(st, keys, p.id);
            && LeafOk(View(p)) && l.entries != [] && Sorted(l.entries)
            && ToMap(l.entries) == if last.None? then ToMap(p.entries) else ToMap(p.entries) - {last.value}
  {
    hide Saved, Stage, Inside, LastVisit, Sorted, ToMap;
    var p, l := st.leaves[at[j]], st'.leaves[j];
    SavedParts(st, at[j]);
    assert VisitedLeaf(st, keys, p, l) && at[j] in at;
    VisitedByOne(st, keys, p.id);
    StageContent(p, l, LastVisit(st, keys, p.id));
  }

  lemma TightForest(st: TreeState, keys: seq<Bytes>, at: seq<nat>, st': TreeState)
    requires Saved(st) && Visited(st, keys, at, st')
    ensures forall j :: 0 <= j < |st'.leaves| ==> st'.leaves[j].entries != []
    ensures ForestOk(Tight(st'.leaves)) && Flatten(Tight(st'.leaves)) == Flatten(Views(st'.leaves))
  {
    hide Saved, VisitedLeaf, LastVisit, Sorted, ToMap, DataCmp, Flatten;
    forall j | 0 <= j < |st'.leaves| ensures st'.leaves[j].entries != [] { LeafLeft(st, keys, at, st', j); }
    var vs := Tight(st'.leaves);
    forall j | 0 <= j < |vs| ensures LeafOk(vs[j]) { LeafLeft(st, keys, at, st', j); }
    forall i, j | 0 <= i < j < |vs| ensures Less(vs[i].maxKey, vs[j].minKey) {
      LeftInRange(st, keys, at, st', i);
      LeftInRange(st, keys, at, st', j);
      SavedParts(st, at[i]);
      assert Less(Views(st.leaves)[at[i]].maxKey, Views(st.leaves)[at[j]].minKey);
    }
    SameEntriesFlatten(vs, Views(st'.leaves));
  }

  lemma LeftInRange(st: TreeState, keys: seq<Bytes>, at: seq<nat>, st': TreeState, j: nat)
    requires Saved(st) && Visited(st, keys, at, st') && j < |at|
    ensures var p, es := st.leaves[at[j]], st'.leaves[j].entries;
            && es != [] && LessEq(p.stat.minKey, es[0].key) && LessEq(es[|es| - 1].key, p.stat.maxKey)
  {
    hide Saved, VisitedLeaf, LastVisit, Sorted, ToMap, DataCmp;
    LeafLeft(st, keys, at, st', j);
    var p, es := st.leaves[at[j]], st'.leaves[j].entries;
    MapAt(es, 0);
    MapAt(es, |es| - 1);
    LeafRange(View(p), es[0].key);
    LeafRange(View(p), es[|es| - 1].key);
  }

  /** A key of a leaf is one of the whole, with its value. */
  lemma LookupIn(vs: seq<LeafView>, i: nat, k: Bytes)
    requires ForestOk(vs) && i < |vs| && k in ToMap(vs[i].entries)
    ensures k in Contents(vs) && Contents(vs)[k] == ToMap(vs[i].entries)[k]
    ensures forall j :: 0 <= j < |vs| && j != i ==> k !in ToMap(vs[j].entries)
  {
    hide DataCmp, ToMap, Sorted, LeafOk, Contents;
    LeafRange(vs[i], k);
    RoutedLookup(vs, i, k);
    forall j | 0 <= j < |vs| && j != i ensures k !in ToMap(vs[j].entries) {
      if k in ToMap(vs[j].entries) { LeafRange(vs[j], k); }
    }
  }

  /** A key of the saved tree is still there exactly when it was not deleted, or its leaf held others
      and was last visited for one of them. */
  lemma KeyStaysIff(st: TreeState, keys: seq<Bytes>, at: seq<nat>, st': TreeState, i: nat, k: Bytes)
    requires Saved(st) && Visited(st, keys, at, st') && i < |st.leaves| && k in ToMap(st.leaves[i].entries)
    ensures k in Model(st) && (k in Model(st') ==> Model(st')[k] == Model(st)[k])
    ensures k in Model(st') <==>
              || k !in keys
              || (|st.leaves[i].entries| >= 2 && LastVisit(st, keys, st.leaves[i].id) != Some(k))
  {
    hide Saved, VisitedLeaf, LastVisit, Sorted, ToMap, DataCmp, Flatten, ForestOk, LeafOk;
    var p, vs := st.leaves[i], Views(st.leaves);
    SavedParts(st, i);
    LookupIn(vs, i, k);
    TightForest(st, keys, at, st');
    VisitedByOne(st, keys, p.id);
    if i in at {
      var j :| 0 <= j < |at| && at[j] == i;
      LeafLeft(st, keys, at, st', j);
      OnlyThere(st, keys, at, st', i, j, k);
      OnlyOne(p.entries, k);
      assert k in ToMap(st'.leaves[j].entries) <==> LastVisit(st, keys, p.id) != Some(k);
    } else {
      OnlyOne(p.entries, k);
      GoneWithLeaf(st, keys, at, st', i, k);
    }
  }

  lemma OnlyOne(es: seq<Entry>, k: Bytes)
    requires k in ToMap(es)
    ensures es != [] && (|es| == 1 ==> es[0].key == k)
  {
    KeysAreEntries(es, k);
  }

  lemma OnlyThere(st: TreeState, keys: seq<Bytes>, at: seq<nat>, st': TreeState, i: nat, j: nat, k: Bytes)
    requires Saved(st) && Visited(st, keys, at, st') && j < |at| && at[j] == i && k in ToMap(st.leaves[i].entries)
    ensures k in Model(st') <==> k in ToMap(st'.leaves[j].entries)
    ensures k in Model(st') ==> Model(st')[k] == ToMap(st'.leaves[j].entries)[k]
  {
    hide Saved, VisitedLeaf, LastVisit, Sorted, ToMap, DataCmp, Flatten, ForestOk, LeafOk;
    TightForest(st, keys, at, st');
    var vs := Tight(st'.leaves);
    if k in ToMap(vs[j].entries) { LookupIn(vs, j, k); }
    if k in Contents(vs) {
      KeyInSomeLeaf(vs, k);
      var n :| 0 <= n < |vs| && k in ToMap(vs[n].entries);
      LeafLeft(st, keys, at, st', n);
      SavedParts(st, i);
      LookupIn(Views(st.leaves), i, k);
    }
  }

  lemma GoneWithLeaf(st: TreeState, keys: seq<Bytes>, at: seq<nat>, st': TreeState, i: nat, k: Bytes)
    requires Saved(st) && Visited(st, keys, at, st') && i < |st.leaves| && i !in at && k in ToMap(st.leaves[i].entries)
    ensures k !in Model(st')
  {
    hide Saved, VisitedLeaf, LastVisit, Sorted, ToMap, DataCmp, Flatten, ForestOk, LeafOk;
    TightForest(st, keys, at, st');
    var vs := Tight(st'.leaves);
    if k in Contents(vs) {
      KeyInSomeLeaf(vs, k);
      var n :| 0 <= n < |vs| && k in ToMap(vs[n].entries);
      LeafLeft(st, keys, at, st', n);
      SavedParts(st, i);
      LookupIn(Views(st.leaves), i, k);
    }
  }

  lemma NothingNew(st: TreeState, keys: seq<Bytes>, at: seq<nat>, st': TreeState, k: Bytes)
    requires Saved(st) && Visited(st, keys, at, st') && k in Model(st')
    ensures k in Model(st)
  {
    hide Saved, VisitedLeaf, LastVisit, Sorted, ToMap, DataCmp, Flatten, ForestOk, LeafOk;
    TightForest(st, keys, at, st');
    var vs := Tight(st'.leaves);
    KeyInSomeLeaf(vs, k);
    var n :| 0 <= n < |vs| && k in ToMap(vs[n].entries);
    LeafLeft(st, keys, at, st', n);
    LeafWithinModel(Views(st.leaves), at[n]);
  }

  lemma {:induction false} DeletedAre(m: map<Bytes, Bytes>, keys: seq<Bytes>, k: Bytes)
    ensures k in DeletedKeys(m, keys) <==> k in m && k !in keys
    ensures k in DeletedKeys(m, keys) ==> DeletedKeys(m, keys)[k] == m[k]
    decreases |keys|
  {
    if keys != [] {
      assert k in keys <==> k == keys[0] || k in keys[1..];
      DeletedAre(m - {keys[0]}, keys[1..], k);
    }
  }

  /** Every key that is deleted from a leaf with others is the last one the statement searches
      there. */
  ghost predicate LastOnly(st: TreeState, keys: seq<Bytes>) {
    forall a, i :: 0 <= a < |keys| && 0 <= i < |st.leaves| && keys[a] in ToMap(st.leaves[i].entries)
                   && |st.leaves[i].entries| >= 2 ==>
      LastVisit(st, keys, st.leaves[i].id) == Some(keys[a])
  }

  /** A statement that deletes any list of keys from a saved tree, present or not, repeated or not, does
      what it does to a finite map exactly then. */
  lemma KeysRightIff(st: TreeState, keys: seq<Bytes>)
    requires Intact(st) && st.unsaved == {}
    ensures Lists(AfterKeys(st, keys).0, DeletedKeys(Model(st), keys)) && AfterKeys(st, keys).1 == Ok <==> LastOnly(st, keys)
  {
    hide Intact, Visited, LastVisit, ToMap, Model, AfterKeys, Sorted, ForestOk;
    var st', m := StateAt(st, keys), DeletedKeys(Model(st), keys);
    var at := AllVisits(st, keys);
    if LastOnly(st, keys) {
      forall k ensures (k in Model(st') <==> k in m) && (k in Model(st') ==> Model(st')[k] == m[k]) {
        DeletedAre(Model(st), keys, k);
        SameAt(st, keys, at, k);
      }
      assert Model(st') == m;
      LeavesSorted(st, keys, at, st');
    } else {
      var a, i :| 0 <= a < |keys| && 0 <= i < |st.leaves| && keys[a] in ToMap(st.leaves[i].entries)
                  && |st.leaves[i].entries| >= 2 && LastVisit(st, keys, st.leaves[i].id) != Some(keys[a]);
      KeyStaysIff(st, keys, at, st', i, keys[a]);
      DeletedAre(Model(st), keys, keys[a]);
    }
  }

  lemma LeavesSorted(st: TreeState, keys: seq<Bytes>, at: seq<nat>, st': TreeState)
    requires Saved(st) && Visited(st, keys, at, st')
    ensures Sorted(Flatten(Views(st'.leaves)))
  {
    hide Saved, Visited, ForestOk;
    TightForest(st, keys, at, st');
    FlattenSorted(Tight(st'.leaves));
  }

  lemma SameAt(st: TreeState, keys: seq<Bytes>, at: seq<nat>, k: Bytes)
    requires Saved(st) && Visited(st, keys, at, StateAt(st, keys)) && LastOnly(st, keys)
    ensures var st' := StateAt(st, keys);
            && (k in Model(st') <==> k in Model(st) && k !in keys) && (k in Model(st') ==> Model(st')[k] == Model(st)[k])
  {
    hide Intact, Visited, LastVisit, ToMap, Flatten, StateAt, Sorted, ForestOk;
    var st' := StateAt(st, keys);
    if k in Model(st) {
      KeyInSomeLeaf(Views(st.leaves), k);
      var i :| 0 <= i < |Views(st.leaves)| && k in ToMap(Views(st.leaves)[i].entries);
      KeyStaysIff(st, keys, at, st', i, k);
    } else if k in Model(st') {
      NothingNew(st, keys, at, st', k);
    }
  }

  // ---- keys that are in the tree ---------------------------------------------------------

  /** Of two keys of one saved leaf, one is there at the end, whatever is deleted. */
  lemma OneOfTwoStays(st: TreeState, keys: seq<Bytes>, i: nat, a: Bytes, b: Bytes)
    requires Intact(st) && st.unsaved == {} && i < |st.leaves| && a != b
    requires a in ToMap(st.leaves[i].entries) && b in ToMap(st.leaves[i].entries)
    ensures a in Model(AfterKeys(st, keys).0) || b in Model(AfterKeys(st, keys).0)
  {
    hide Intact, Visited, LastVisit, ToMap, Model, AfterKeys;
    var at := AllVisits(st, keys);
    TwoKeysTwoEntries(st.leaves[i].entries, a, b);
    KeyStaysIff(st, keys, at, StateAt(st, keys), i, a);
    KeyStaysIff(st, keys, at, StateAt(st, keys), i, b);
  }

  lemma TwoKeysTwoEntries(es: seq<Entry>, a: Bytes, b: Bytes)
    requires a != b && a in ToMap(es) && b in ToMap(es)
    ensures |es| >= 2
  {
    KeysAreEntries(es, a);
    KeysAreEntries(es, b);
  }

  /** A key that is searched in a leaf lies in the range the leaf was saved with. */
  lemma {:induction false} VisitInRange(st: TreeState, keys: seq<Bytes>, i: nat)
    requires Saved(st) && i < |st.leaves|
    ensures LastVisit(st, keys, st.leaves[i].id).Some? ==>
              LastVisit(st, keys, st.leaves[i].id).value in keys && Spans(st.leaves[i], LastVisit(st, keys, st.leaves[i].id).value)
    decreases |keys|
  {
    hide Saved, StateAt, FoundId, Spans;
    if keys != [] {
      var front, key := keys[..|keys| - 1], keys[|keys| - 1];
      VisitInRange(st, front, i);
      if FoundId(StateAt(st, front), key) == st.leaves[i].id {
        var at := AllVisits(st, front);
        SearchedInside(st, front, at, StateAt(st, front), i, key);
      }
    }
  }

  lemma SearchedInside(st: TreeState, keys: seq<Bytes>, at: seq<nat>, st': TreeState, i: nat, key: Bytes)
    requires Saved(st) && Visited(st, keys, at, st') && i < |st.leaves| && FoundId(st', key) == st.leaves[i].id
    ensures Spans(st.leaves[i], key)
  {
    hide Saved, LastVisit, Stage, DataCmp;
    SavedParts(st, i);
    var j := Find(st'.leaves, key);
    assert j < |at|;
    assert VisitedLeaf(st, keys, st.leaves[at[j]], st'.leaves[j]);
    assert at[j] == i;
    InsideRange(st.leaves[i], st'.leaves[j], key);
  }

  lemma InsideRange(p: LeafState, l: LeafState, key: Bytes)
    requires Inside(p, l) && Spans(l, key)
    ensures Spans(p, key)
  {
  }

  /** A key of a leaf makes the statement search there. */
  lemma {:induction false} MustVisit(st: TreeState, keys: seq<Bytes>, i: nat, k: Bytes)
    requires Saved(st) && i < |st.leaves| && k in ToMap(st.leaves[i].entries) && k in keys
    ensures LastVisit(st, keys, st.leaves[i].id).Some?
    decreases |keys|
  {
    hide Saved, StateAt, FoundId, ToMap;
    var front, key := keys[..|keys| - 1], keys[|keys| - 1];
    if k in front {
      MustVisit(st, front, i, k);
    } else if LastVisit(st, front, st.leaves[i].id).None? {
      assert keys == front + [key] && key == k;
      var at := AllVisits(st, front);
      FirstSearch(st, front, at, StateAt(st, front), i, k);
    }
  }

  lemma FirstSearch(st: TreeState, keys: seq<Bytes>, at: seq<nat>, st': TreeState, i: nat, k: Bytes)
    requires Saved(st) && Visited(st, keys, at, st') && i < |st.leaves| && k in ToMap(st.leaves[i].entries) && k !in keys
    requires LastVisit(st, keys, st.leaves[i].id).None?
    ensures FoundId(st', k) == st.leaves[i].id
  {
    hide Saved, LastVisit, Stage, Inside, ToMap, DataCmp, Find;
    SavedParts(st, i);
    OnlyOne(st.leaves[i].entries, k);
    var j :| 0 <= j < |at| && at[j] == i;
    assert VisitedLeaf(st, keys, st.leaves[i], st'.leaves[j]);
    LeafRange(View(st.leaves[i]), k);
    OwnRangeFound(st, keys, at, st', j, k);
  }

  /** For keys that are all in the tree, repeated or not, the statement is right exactly when no two
      different ones are in one leaf. */
  lemma PresentKeysRightIff(st: TreeState, keys: seq<Bytes>)
    requires Intact(st) && st.unsaved == {} && forall a :: 0 <= a < |keys| ==> keys[a] in Model(st)
    ensures Lists(AfterKeys(st, keys).0, DeletedKeys(Model(st), keys)) && AfterKeys(st, keys).1 == Ok <==>
            forall a, b :: 0 <= a < b < |keys| && keys[a] != keys[b] ==> Find(st.leaves, keys[a]) != Find(st.leaves, keys[b])
  {
    hide Intact, LastVisit, ToMap, Model, AfterKeys, Find, Lists, DeletedKeys;
    KeysRightIff(st, keys);
    if forall a, b :: 0 <= a < b < |keys| && keys[a] != keys[b] ==> Find(st.leaves, keys[a]) != Find(st.leaves, keys[b]) {
      forall a, i | 0 <= a < |keys| && 0 <= i < |st.leaves| && keys[a] in ToMap(st.leaves[i].entries)
        ensures LastVisit(st, keys, st.leaves[i].id) == Some(keys[a])
      {
        MustVisit(st, keys, i, keys[a]);
        VisitInRange(st, keys, i);
        InItsRange(st, i, keys[a]);
        FindIs(st.leaves, LastVisit(st, keys, st.leaves[i].id).value, i) by { IntactParts(st); }
      }
    } else {
      var a, b :| 0 <= a < b < |keys| && keys[a] != keys[b] && Find(st.leaves, keys[a]) == Find(st.leaves, keys[b]);
      PresentInLeaf(st, keys[a]);
      PresentInLeaf(st, keys[b]);
      TwoKeysTwoEntries(st.leaves[Find(st.leaves, keys[a])].entries, keys[a], keys[b]);
    }
  }

  lemma InItsRange(st: TreeState, i: nat, k: Bytes)
    requires Intact(st) && i < |st.leaves| && k in ToMap(st.leaves[i].entries)
    ensures Find(st.leaves, k) == i
  {
    hide Intact, ToMap, DataCmp, Find;
    IntactParts(st);
    IntactLeaf(st, i);
    LeafRange(View(st.leaves[i]), k);
    FindIs(st.leaves, k, i);
  }
}
