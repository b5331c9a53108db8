/** Statements of many rows on a saved tree: exactly when they do what a finite map does.
    Once a row re-reads a leaf that is not settled, some entry is in the tree twice, and no
    later row can take it out again. */
module UnsavedRows {
  import opened DataOrder
  import opened OrderedMap
  import opened Forest
  import opened TreeStates
  import opened TreeOps
  import opened Statements
  import opened UnsavedUpdates

  /** The leaves, from left to right, list the entries of the map in key order, each once. */
  ghost predicate Lists(st: TreeState, m: map<Bytes, Bytes>) {
    Sorted(Flatten(Views(st.leaves))) && Model(st) == m
  }

  lemma IntactLists(st: TreeState)
    requires Intact(st)
    ensures Lists(st, Model(st))
  {
    FlattenSorted(Views(st.leaves));
  }

  // ---- how many entries there are -------------------------------------------

  ghost function Total(ls: seq<LeafState>): nat {
    if ls == [] then 0 else |ls[0].entries| + Total(ls[1..])
  }

  lemma {:induction false} TotalIsLength(ls: seq<LeafState>)
    ensures |Flatten(Views(ls))| == Total(ls)
  {
    if ls == [] {
      assert Views(ls) == [];
    } else {
      TotalIsLength(ls[1..]);
      assert Views(ls)[1..] == Views(ls[1..]);
    }
  }

  lemma {:induction false} TotalConcat(a: seq<LeafState>, b: seq<LeafState>)
    ensures Total(a + b) == Total(a) + Total(b)
  {
    if a == [] {
      assert a + b == b;
    } else {
      TotalConcat(a[1..], b);
      assert (a + b)[1..] == a[1..] + b;
    }
  }

  lemma TotalAt(ls: seq<LeafState>, i: nat)
    requires i < |ls|
    ensures Total(ls) == Total(ls[..i]) + |ls[i].entries| + Total(ls[i + 1..])
  {
    assert ls == ls[..i] + ls[i..];
    TotalConcat(ls[..i], ls[i..]);
    assert ls[i..][1..] == ls[i + 1..];
  }

  lemma TotalPut(ls: seq<LeafState>, i: nat, l: LeafState)
    requires i < |ls|
    ensures Total(ls[i := l]) == Total(ls) - |ls[i].entries| + |l.entries|
  {
    hide Total;
    TotalAt(ls, i);
    TotalAt(ls[i := l], i);
    assert ls[i := l][..i] == ls[..i] && ls[i := l][i + 1..] == ls[i + 1..];
  }

  lemma TotalPutIn(ls: seq<LeafState>, at: nat, l: LeafState)
    requires at <= |ls|
    ensures Total(ls[..at] + [l] + ls[at..]) == Total(ls) + |l.entries|
  {
    hide Total;
    TotalConcat(ls[..at], ls[at..]);
    assert ls[..at] + ls[at..] == ls;
    var ms := ls[..at] + [l] + ls[at..];
    TotalAt(ms, at);
    assert ms[..at] == ls[..at] && ms[at + 1..] == ls[at..];
  }

  /** A sorted container has as many entries as keys. */
  lemma {:induction false} SortedSize(s: seq<Entry>)
    requires Sorted(s)
    ensures |Keys(s)| == |s| == |ToMap(s)|
  {
    if s != [] {
      SortedSize(s[..|s| - 1]);
      LastKeyFresh(s);
      assert Keys(s) == Keys(s[..|s| - 1]) + {s[|s| - 1].key};
    }
    MapSize(ToMap(s));
  }

  lemma {:induction false} MapSize(m: map<Bytes, Bytes>)
    ensures |m| == |m.Keys|
  {
  }

  lemma ListedTotal(st: TreeState, m: map<Bytes, Bytes>)
    requires Lists(st, m)
    ensures Total(st.leaves) == |m|
  {
    hide Flatten, ToMap, Total, Sorted;
    TotalIsLength(st.leaves);
    SortedSize(Flatten(Views(st.leaves)));
  }

  // ---- what re-reading does to a leaf ----------------------------------------

  lemma Subset(a: set<Bytes>, b: set<Bytes>)
    ensures |a + b| >= |a|
    ensures !(b <= a) ==> |a + b| > |a|
  {
    SubsetSize(a, a + b);
    if !(b <= a) {
      var x :| x in b && x !in a;
      SubsetSize(a + {x}, a + b);
    }
  }

  lemma {:induction false} SubsetSize(a: set<Bytes>, b: set<Bytes>)
    requires a <= b
    ensures |a| <= |b|
    decreases |a|
  {
    if a != {} {
      var x :| x in a;
      SubsetSize(a - {x}, b - {x});
    }
  }

  /** It never loses an entry, and gains one exactly when the leaf is not settled. */
  lemma RereadGrows(st: TreeState, l: LeafState)
    requires LeafInv(st, l) && RootInv(st) && Sorted(l.entries)
    ensures Sorted(Reread(st, l)) && |Reread(st, l)| >= |l.entries|
    ensures Keys(Reread(st, l)) <= Keys(l.entries) + if l.id in st.nodes then Keys(st.nodes[l.id].entries) else {}
    ensures !LeafSettled(st, l) ==> |Reread(st, l)| > |l.entries|
  {
    hide DataCmp, ToMap, EmplaceAll, Sorted;
    if l.id in st.nodes && l.id in st.unsaved {
      var stored := st.nodes[l.id].entries;
      MergeKeys(l.kvs, stored);
      SortedSize(l.kvs);
      SortedSize(Reread(st, l));
      Subset(Keys(l.kvs), Keys(stored));
    } else {
      RereadIsEntries(st, l);
    }
  }

  /** What is known of a tree that may hold entries twice. */
  ghost predicate Loose(st: TreeState) {
    && WellFormed(st) && DistinctIds(st.leaves) && Backed(st) && Fresh(st)
    && forall i :: 0 <= i < |st.leaves| ==> Sorted(st.leaves[i].entries)
  }

  /** No leaf holds or would get back a key outside the map. */
  ghost predicate Within(st: TreeState, l: LeafState, m: map<Bytes, Bytes>) {
    Keys(l.entries) <= m.Keys && (l.id in st.nodes && st.nodes[l.id].SavedLeaf? ==> Keys(st.nodes[l.id].entries) <= m.Keys)
  }

  ghost predicate Known(st: TreeState, m: map<Bytes, Bytes>) {
    forall i :: 0 <= i < |st.leaves| ==> Within(st, st.leaves[i], m)
  }

  lemma LoadGrows(st: TreeState, i: nat, m: map<Bytes, Bytes>)
    requires Loose(st) && Known(st, m) && i < |st.leaves|
    ensures var st' := LoadLeaf(st, i);
            && Loose(st') && Known(st', m) && st'.leaves[i].kvs == st'.leaves[i].entries && st'.keyLimit == st.keyLimit
            && Total(st'.leaves) >= Total(st.leaves)
            && (!LeafSettled(st, st.leaves[i]) ==> Total(st'.leaves) > Total(st.leaves))
  {
    hide LeafWf, Total, Reread, LeafSettled, Sorted, Keys;
    var l, st' := st.leaves[i], LoadLeaf(st, i);
    LoadWf(st, i);
    RereadGrows(st, l);
    TotalPut(st.leaves, i, st'.leaves[i]);
    RereadOfSaved(st, l);
    StoredIsLeaf(st, l);
    forall j | 0 <= j < |st'.leaves| ensures LeafBacked(st', st'.leaves[j]) && Within(st', st'.leaves[j], m) {
      assert LeafBacked(st, st.leaves[j]) && Within(st, st.leaves[j], m);
    }
  }

  lemma RereadOfSaved(st: TreeState, l: LeafState)
    requires LeafInv(st, l) && Sorted(l.entries)
    ensures l.id !in st.unsaved ==> Reread(st, l) == l.entries
  {
    if l.id !in st.unsaved { RereadIsEntries(st, l); }
  }

  lemma StoredIsLeaf(st: TreeState, l: LeafState)
    requires LeafWf(st, l) && RootInv(st)
    ensures l.id in st.nodes ==> st.nodes[l.id].SavedLeaf?
  {
  }

  // ---- what a row does to a loose tree ----------------------------------------

  /** The new entry is one more. */
  lemma EntryGrows(st: TreeState, i: nat, e: Entry, m: map<Bytes, Bytes>)
    requires Loose(st) && Known(st, m) && i < |st.leaves| && st.leaves[i].kvs == st.leaves[i].entries
    requires RowSized(st, e) && !Has(st.leaves[i].kvs, e.key)
    ensures var st', m' := InsertStep(st, i, e), m[e.key := e.value];
            && Loose(st') && Known(st', m') && Total(st'.leaves) == Total(st.leaves) + 1
            && st'.leaves[i].kvs == st'.leaves[i].entries
  {
    hide LeafWf, WellFormed, Total, Sorted, ToMap, DataCmp, Emplace, Has, InsertStep, Keys;
    var l, st', m' := st.leaves[i], InsertStep(st, i, e), m[e.key := e.value];
    InsertWf(st, i, e);
    InsertStepIs(st, i, e);
    GrownLeaf(st, l, e, m);
    TotalPut(st.leaves, i, st'.leaves[i]);
    forall j | 0 <= j < |st'.leaves|
      ensures LeafBacked(st', st'.leaves[j]) && Within(st', st'.leaves[j], m') && Sorted(st'.leaves[j].entries)
    {
      assert LeafBacked(st, st.leaves[j]) && Within(st, st.leaves[j], m) && (j != i ==> st.leaves[j].id != l.id);
    }
  }

  lemma GrownLeaf(st: TreeState, l: LeafState, e: Entry, m: map<Bytes, Bytes>)
    requires Sorted(l.entries) && l.kvs == l.entries && !Has(l.kvs, e.key) && Within(st, l, m)
    ensures var l' := WithEntry(l, e);
            && l'.id == l.id && l'.kvs == l'.entries && Sorted(l'.entries) && |l'.entries| == |l.entries| + 1
            && Keys(l'.entries) <= m[e.key := e.value].Keys
  {
    hide Sorted, ToMap, DataCmp, Emplace, Has, AddStat;
    HasIffKey(l.kvs, e.key);
    EmplaceSpec(l.kvs, e);
  }

  lemma InsertStepIs(st: TreeState, i: nat, e: Entry)
    requires DistinctIds(st.leaves) && i < |st.leaves|
    ensures var st' := InsertStep(st, i, e);
            && st'.leaves == st.leaves[i := WithEntry(st.leaves[i], e).(listed := true)]
            && st'.unsaved == st.unsaved + {st.leaves[i].id} && st'.nodes == st.nodes && st'.maxId == st.maxId
  {
    hide WithEntry, Listed;
    SameId(st.leaves[i], e);
    ListedAlone(st.leaves[i := WithEntry(st.leaves[i], e)], i);
  }

  lemma FirstGrows(st: TreeState, e: Entry, m: map<Bytes, Bytes>)
    requires Loose(st) && st.leaves == [] && RowSized(st, e)
    ensures var st', m' := InsertStep(NewLeaf(st), 0, e), m[e.key := e.value];
            && Loose(st') && Known(st', m') && Total(st'.leaves) == 1 && st'.leaves[0].kvs == st'.leaves[0].entries
  {
    hide LeafWf, AddStat;
    NewLeafWf(st);
    InsertWf(NewLeaf(st), 0, e);
    var st' := InsertStep(NewLeaf(st), 0, e);
    assert st'.leaves[0].entries == [e];
    assert st'.leaves[1..] == [];
    ToMapSingle(e);
  }

  /** Where the leaf that is at `j` after a split at `at` was before it. */
  ghost function BeforeCut(at: nat, j: nat): nat
    requires at != j
  {
    if j < at then j else j - 1
  }

  /** Where the leaves are after a split, in whatever order they were. */
  lemma SplitMembers(st: TreeState, i: nat)
    requires DistinctIds(st.leaves) && IdFree(st) && i < |st.leaves| && |st.leaves[i].kvs| >= 2
    ensures var ls, at, la := SplitStep(st, i).leaves, RightAt(st.leaves, i), LeftAt(st.leaves, i);
            && DistinctIds(ls) && at < |ls| && la < |ls| && at != la
            && ls[at] == RightHalf(st.leaves[i], st.maxId + 1).(listed := true) && ls[la] == LeftHalf(st.leaves[i]).(listed := true)
            && forall j :: 0 <= j < |ls| && j != at && j != la ==>
                 BeforeCut(at, j) != i && ls[j] == st.leaves[BeforeCut(at, j)]
    ensures SplitStep(st, i).unsaved == st.unsaved + {st.maxId + 1} + {st.leaves[i].id}
  {
    hide LeftHalf, RightHalf, SplitLeaves, RightAt, LeftAt, Listed, SplitStep;
    var l, r := LeftHalf(st.leaves[i]), RightHalf(st.leaves[i], st.maxId + 1);
    var ms, at, la := SplitLeaves(st.leaves, i, st.maxId + 1), RightAt(st.leaves, i), LeftAt(st.leaves, i);
    HalfIds(st.leaves[i], st.maxId + 1);
    CutLeaves(st.leaves, i, st.maxId + 1);
    ListedAlone(ms, at);
    ListedAlone(ms[at := r.(listed := true)], la);
    SplitStepIs(st, i);
  }

  lemma CutLeaves(ls: seq<LeafState>, i: nat, id: nat)
    requires DistinctIds(ls) && i < |ls| && |ls[i].kvs| >= 2 && forall j :: 0 <= j < |ls| ==> ls[j].id != id
    ensures var ms, at, la := SplitLeaves(ls, i, id), RightAt(ls, i), LeftAt(ls, i);
            && |ms| == |ls| + 1 && at < |ms| && la < |ms| && at != la && DistinctIds(ms)
            && ms[at] == RightHalf(ls[i], id) && ms[la] == LeftHalf(ls[i])
            && forall j :: 0 <= j < |ms| && j != at && j != la ==> BeforeCut(at, j) != i && ms[j] == ls[BeforeCut(at, j)]
  {
    hide LeftHalf, RightHalf, FirstAbove;
    var l, r := LeftHalf(ls[i]), RightHalf(ls[i], id);
    HalfIds(ls[i], id);
    PutIn(ls[i := l], RightAt(ls, i), r);
    var ms, at := SplitLeaves(ls, i, id), RightAt(ls, i);
    IdsWithNew(ls, ms, at, id);
  }

  lemma IdsWithNew(ls: seq<LeafState>, ms: seq<LeafState>, at: nat, id: nat)
    requires DistinctIds(ls) && (forall j :: 0 <= j < |ls| ==> ls[j].id != id) && at < |ms| == |ls| + 1
    requires forall j :: 0 <= j < |ms| ==> ms[j].id == if j == at then id else ls[if j < at then j else j - 1].id
    ensures DistinctIds(ms)
  {
  }

  lemma {:induction false} TotalSame(ls: seq<LeafState>, ms: seq<LeafState>)
    requires |ls| == |ms| && forall j :: 0 <= j < |ls| ==> ls[j].entries == ms[j].entries
    ensures Total(ls) == Total(ms)
  {
    if ls != [] { TotalSame(ls[1..], ms[1..]); }
  }

  lemma SplitTotal(st: TreeState, i: nat)
    requires i < |st.leaves| && st.leaves[i].kvs == st.leaves[i].entries && |st.leaves[i].kvs| >= 2
    ensures Total(SplitStep(st, i).leaves) == Total(st.leaves)
  {
    hide Total, FirstAbove, PayloadSize, SplitStep, RightAt, LeftAt;
    var l, r := LeftHalf(st.leaves[i]), RightHalf(st.leaves[i], st.maxId + 1);
    TotalPut(st.leaves, i, l);
    TotalPutIn(st.leaves[i := l], FirstAbove(st.leaves[i := l], r.stat.maxKey), r);
    SplitStepIs(st, i);
    TotalSame(SplitLeaves(st.leaves, i, st.maxId + 1), SplitStep(st, i).leaves);
  }

  /** Cutting a leaf keeps the number of entries. */
  lemma SplitKeepsTotal(st: TreeState, i: nat, m: map<Bytes, Bytes>)
    requires Loose(st) && Known(st, m) && i < |st.leaves|
    requires st.leaves[i].kvs == st.leaves[i].entries && |st.leaves[i].kvs| >= 2
    ensures var st' := SplitStep(st, i); Loose(st') && Known(st', m) && Total(st'.leaves) == Total(st.leaves)
  {
    hide WellFormed, LooseLeaf, Total, ToMap, DataCmp, Sorted, SplitStep, RightAt, LeftAt, LeftHalf, RightHalf, Keys,
         LeafBacked, Within;
    var p, st', at, la := st.leaves[i], SplitStep(st, i), RightAt(st.leaves, i), LeftAt(st.leaves, i);
    SplitWf(st, i);
    SplitMembers(st, i);
    SplitStepIs(st, i);
    SplitTotal(st, i);
    HalvesKnown(st, i, m);
    forall k | 0 <= k < |st.leaves| && k != i ensures LooseLeaf(st', st.leaves[k], m) {
      LooseLeafOf(st, k, m);
      LeafKept(st, p.id, st', st.leaves[k], m);
    }
    forall j | 0 <= j < |st'.leaves| ensures LooseLeaf(st', st'.leaves[j], m) {
      if j != at && j != la {
        assert LooseLeaf(st', st.leaves[BeforeCut(at, j)], m);
      }
    }
    AllLoose(st', m);
  }

  lemma LooseLeafOf(st: TreeState, k: nat, m: map<Bytes, Bytes>)
    requires Loose(st) && Known(st, m) && k < |st.leaves|
    ensures LooseLeaf(st, st.leaves[k], m)
  {
    hide WellFormed;
  }

  lemma AllLoose(st: TreeState, m: map<Bytes, Bytes>)
    requires WellFormed(st) && DistinctIds(st.leaves) && forall k :: k in st.nodes ==> k <= st.maxId
    requires forall j :: 0 <= j < |st.leaves| ==> LooseLeaf(st, st.leaves[j], m)
    ensures Loose(st) && Known(st, m)
  {
    hide WellFormed;
  }

  ghost predicate LooseLeaf(st: TreeState, l: LeafState, m: map<Bytes, Bytes>) {
    LeafBacked(st, l) && Sorted(l.entries) && Within(st, l, m) && l.id <= st.maxId
  }

  lemma LeafKept(st: TreeState, id: nat, st': TreeState, l: LeafState, m: map<Bytes, Bytes>)
    requires LooseLeaf(st, l, m) && l.id != id && st'.nodes == st.nodes && st'.maxId == st.maxId + 1
    requires st'.unsaved == st.unsaved + {st.maxId + 1} + {id}
    ensures LooseLeaf(st', l, m)
  {
    hide Keys, Sorted;
  }

  lemma HalvesKnown(st: TreeState, i: nat, m: map<Bytes, Bytes>)
    requires Loose(st) && Known(st, m) && i < |st.leaves|
    requires st.leaves[i].kvs == st.leaves[i].entries && |st.leaves[i].kvs| >= 2
    ensures var st' := SplitStep(st, i);
            && LooseLeaf(st', LeftHalf(st.leaves[i]).(listed := true), m)
            && LooseLeaf(st', RightHalf(st.leaves[i], st.maxId + 1).(listed := true), m)
  {
    hide WellFormed, Backed, ToMap, DataCmp, Sorted, SplitStep, RightAt, LeftAt, LeftHalf, RightHalf, Keys;
    HalvesKeys(st.leaves[i], st.maxId + 1);
    SplitMembers(st, i);
    SplitStepIs(st, i);
    assert Within(st, st.leaves[i], m);
  }

  lemma HalvesKeys(p: LeafState, id: nat)
    requires Sorted(p.entries) && p.kvs == p.entries && |p.kvs| >= 2
    ensures var l, r := LeftHalf(p), RightHalf(p, id);
            && Sorted(l.entries) && Sorted(r.entries) && |l.entries| + |r.entries| == |p.entries|
            && Keys(l.entries) <= Keys(p.entries) && Keys(r.entries) <= Keys(p.entries)
            && l.kvs == l.entries && r.kvs == r.entries && l.id == p.id && r.id == id
  {
    hide DataCmp, PayloadSize, ToMap;
    var s, n := p.kvs, Cut(|p.kvs|);
    assert s[..n] == s[0..n] && s[n..] == s[n..|s|];
    ToMapSplit(s, n);
  }

  lemma LeavesKept(st: TreeState, m: map<Bytes, Bytes>)
    requires Loose(st) && Known(st, m) && st.leaves != []
    ensures Loose(TouchRoot(st, true)) && Known(TouchRoot(st, true), m)
  {
    hide LeafWf, Sorted, ToMap, RangeStat;
    var st' := TouchRoot(st, true);
    RootDueIff(st, true);
    forall j | 0 <= j < |st'.leaves| ensures LeafBacked(st', st'.leaves[j]) && Within(st', st'.leaves[j], m) {
      assert LeafBacked(st, st.leaves[j]) && Within(st, st.leaves[j], m);
      OwnId(st, st.leaves[j]);
    }
  }

  /** A row that is refused has a key of the map; a row that goes in is one entry more. Either
      way nothing is lost, and a leaf that was not settled gets something back. */
  lemma RowGrows(st: TreeState, e: Entry, m: map<Bytes, Bytes>)
    requires Loose(st) && Known(st, m) && RowSized(st, e)
    ensures Total(Located(st, e.key).leaves) >= Total(st.leaves) + if InsertReady(st, e.key) then 0 else 1
    ensures InsertStatus(st, e) in {Ok, DuplicateKey, Undefined} && (InsertStatus(st, e) == DuplicateKey ==> e.key in m)
    ensures InsertStatus(st, e) != DuplicateKey ==>
              var st', m' := AfterInsert(st, e), m[e.key := e.value];
              Loose(st') && Known(st', m') && Total(st'.leaves) == Total(Located(st, e.key).leaves) + 1
  {
    hide Loose, Known, Total, LoadLeaf, InsertStep, NewLeaf, Route, Has, Keys, LeafSettled, SplitStep, RangeStat, RootDue;
    var m' := m[e.key := e.value];
    if st.leaves == [] {
      NewLeafIsEmpty(st, e);
      FirstGrows(st, e, m);
    } else {
      var i := Route(st.leaves, e.key);
      LoadGrows(st, i, m);
      HeldIsKnown(LoadLeaf(st, i), i, e.key, m);
      if !Has(LoadLeaf(st, i).leaves[i].kvs, e.key) { EntryGrows(LoadLeaf(st, i), i, e, m); }
    }
    if InsertStatus(st, e) != DuplicateKey {
      var st1, i := Placed(st, e), Touched(st, e.key);
      if SplitDue(st1.leaves[i].stat, |st1.leaves[i].kvs|) { SplitKeepsTotal(st1, i, m'); }
      LeavesKept(MaybeSplit(st1, i), m');
    }
  }

  lemma NewLeafIsEmpty(st: TreeState, e: Entry)
    requires st.leaves == []
    ensures InsertStatus(st, e) != DuplicateKey && Total(st.leaves) == 0 == Total(Located(st, e.key).leaves)
    ensures InsertReady(st, e.key)
  {
    hide AfterInsert, RootDue;
    assert Located(st, e.key).leaves[1..] == [];
  }

  lemma HeldIsKnown(st: TreeState, i: nat, key: Bytes, m: map<Bytes, Bytes>)
    requires Loose(st) && Known(st, m) && i < |st.leaves| && st.leaves[i].kvs == st.leaves[i].entries
    ensures Has(st.leaves[i].kvs, key) ==> key in m
  {
    hide DataCmp, Has, WellFormed, Backed;
    HasIffKey(st.leaves[i].kvs, key);
    assert Within(st, st.leaves[i], m);
  }

  // ---- what a statement does -------------------------------------------------

  lemma {:induction false} RowsGrow(st: TreeState, rows: seq<Entry>, m: map<Bytes, Bytes>)
    requires Loose(st) && Known(st, m) && RowsSized(st, rows)
    ensures Total(AfterRows(st, rows).0.leaves) >= Total(st.leaves)
    decreases |rows|
  {
    hide Loose, Known, Total, AfterInsert, InsertStatus, Located, InsertReady, RowsSized;
    if rows != [] {
      RestSized(st, rows);
      RowGrows(st, rows[0], m);
      if InsertStatus(st, rows[0]) == Ok {
        RowsGrow(AfterInsert(st, rows[0]), rows[1..], m[rows[0].key := rows[0].value]);
      }
    }
  }

  /** Too many entries stay too many. */
  lemma {:induction false} ExcessStays(st: TreeState, rows: seq<Entry>, m: map<Bytes, Bytes>)
    requires Loose(st) && Known(st, m) && RowsSized(st, rows) && Total(st.leaves) > |m| && AfterRows(st, rows).1 != Undefined
    ensures Total(AfterRows(st, rows).0.leaves) > |InsertedRows(m, rows).0|
    decreases |rows|
  {
    hide Loose, Known, Total, AfterInsert, InsertStatus, Located, InsertReady, RowsSized;
    if rows != [] {
      var e := rows[0];
      RestSized(st, rows);
      RowGrows(st, e, m);
      if InsertStatus(st, e) == Ok {
        if e.key in m {
          RowsGrow(AfterInsert(st, e), rows[1..], m[e.key := e.value]);
        } else {
          MapGrows(m, e);
          ExcessStays(AfterInsert(st, e), rows[1..], m[e.key := e.value]);
        }
      }
    }
  }

  lemma MapGrows(m: map<Bytes, Bytes>, e: Entry)
    requires e.key !in m
    ensures |m[e.key := e.value]| == |m| + 1
  {
    assert m[e.key := e.value].Keys == m.Keys + {e.key};
    MapSize(m);
    MapSize(m[e.key := e.value]);
  }

  lemma InvIsLoose(st: TreeState)
    requires Inv(st)
    ensures Loose(st) && Total(st.leaves) == |Model(st)|
  {
    hide WellFormed, Backed, Flatten, Total, Model;
    IntactLists(st);
    ListedTotal(st, Model(st));
    forall i | 0 <= i < |st.leaves| ensures Sorted(st.leaves[i].entries) { LoadedLeaf(st, i); }
  }

  /** A row that finds its leaf unsettled is the end of it. */
  lemma {:induction false} UnreadyRowsExceed(st: TreeState, rows: seq<Entry>)
    requires Inv(st) && Known(st, Model(st)) && RowsSized(st, rows) && !RowsReady(st, rows) && AfterRows(st, rows).1 != Undefined
    ensures Total(AfterRows(st, rows).0.leaves) > |InsertedRows(Model(st), rows).0|
    decreases |rows|
  {
    hide Intact, Fresh, Loose, Known, Total, AfterInsert, InsertStatus, Located, InsertReady, TakesFreeId, RowsSized, Model;
    var e, m := rows[0], Model(st);
    InvIsLoose(st);
    RestSized(st, rows);
    RowGrows(st, e, m);
    FreshIsFree(st, e);
    if InsertReady(st, e.key) {
      InsertStatusIs(st, e);
      assert InsertStatus(st, e) == Ok;
      InsertMeaning(st, e);
      UnreadyRowsExceed(AfterInsert(st, e), rows[1..]);
    } else if InsertStatus(st, e) == Ok {
      if e.key in m {
        RowsGrow(AfterInsert(st, e), rows[1..], m[e.key := e.value]);
      } else {
        MapGrows(m, e);
        ExcessStays(AfterInsert(st, e), rows[1..], m[e.key := e.value]);
      }
    }
  }

  lemma SavedIsKnown(st: TreeState)
    requires Inv(st) && st.unsaved == {}
    ensures Known(st, Model(st))
  {
    hide WellFormed, ToMap, Flatten, ForestOk, Contents;
    forall i | 0 <= i < |st.leaves| ensures Within(st, st.leaves[i], Model(st)) {
      assert LeafBacked(st, st.leaves[i]);
      LeafWithinModel(Views(st.leaves), i);
    }
  }

  /** A statement of any number of rows on a saved tree does what it does to a finite map, with
      the same status, exactly when every row finds its leaf settled and none makes the root due
      for a split. */
  lemma RowsRightIff(st: TreeState, rows: seq<Entry>)
    requires Inv(st) && st.unsaved == {} && RowsSized(st, rows)
    ensures var (st', s), (m', s') := AfterRows(st, rows), InsertedRows(Model(st), rows);
            Lists(st', m') && s == s' <==> RowsReady(st, rows) && s != Undefined
  {
    hide Intact, Fresh, Total, RowsReady, AfterRows, RowsSized, Model;
    SavedIsKnown(st);
    NeverUndefined(Model(st), rows);
    var st', m' := AfterRows(st, rows).0, InsertedRows(Model(st), rows).0;
    if AfterRows(st, rows).1 == Undefined {
    } else if RowsReady(st, rows) {
      RowsMeaning(st, rows);
      IntactLists(st');
    } else {
      UnreadyRowsExceed(st, rows);
      if Lists(st', m') { ListedTotal(st', m'); }
    }
  }

  lemma {:induction false} NeverUndefined(m: map<Bytes, Bytes>, rows: seq<Entry>)
    ensures InsertedRows(m, rows).1 in {Ok, DuplicateKey}
    decreases |rows|
  {
    if rows != [] && rows[0].key !in m { NeverUndefined(m[rows[0].key := rows[0].value], rows[1..]); }
  }

  /** Two rows: exactly when the first is a duplicate, splits no leaf, or splits one of two keys
      above both, or the second row goes elsewhere than to the left half. */
  lemma TwoRowsRightIff(st: TreeState, a: Entry, b: Entry)
    requires Inv(st) && st.unsaved == {} && RowSized(st, a) && RowSized(st, b) && AfterRows(st, [a, b]).1 != Undefined
    ensures var (st', s), (m', s') := AfterRows(st, [a, b]), InsertedRows(Model(st), [a, b]);
            Lists(st', m') && s == s' <==>
              || a.key in Model(st)
              || |AfterInsert(st, a).leaves| == |Placed(st, a).leaves|
              || (var es := st.leaves[Touched(st, a.key)].entries; |es| == 2 && Less(es[1].key, a.key))
              || Route(AfterInsert(st, a).leaves, b.key) != Touched(st, a.key)
  {
    hide Intact, Fresh, AfterInsert, Placed, InsertReady, AfterRows, InsertedRows, Route, Model, Lists, DataCmp;
    RowsRightIff(st, [a, b]);
    NothingUnsaved(st);
    SettledIsReady(st, a.key);
    FirstRowDefined(st, a, b);
    SecondRow(st, a, b);
    if a.key !in Model(st) { NextRowReadyIff(st, a, b.key); }
  }

  lemma SecondRow(st: TreeState, a: Entry, b: Entry)
    requires Inv(st) && InsertReady(st, a.key) && RowSized(st, a) && InsertStatus(st, a) != Undefined
    ensures RowsReady(st, [a, b]) <==> a.key in Model(st) || InsertReady(AfterInsert(st, a), b.key)
  {
    hide Intact, Fresh, AfterInsert, InsertReady, InsertStatus, TakesFreeId, Model;
    FreshIsFree(st, a);
    InsertStatusIs(st, a);
    assert [a, b][1..] == [b] && [b][1..] == [];
    if a.key !in Model(st) {
      InsertMeaning(st, a);
      FreshIsFree(AfterInsert(st, a), b);
      assert RowsReady(AfterInsert(st, a), [b]) <==> InsertReady(AfterInsert(st, a), b.key);
    }
  }

  lemma FirstRowDefined(st: TreeState, a: Entry, b: Entry)
    requires AfterRows(st, [a, b]).1 != Undefined
    ensures InsertStatus(st, a) != Undefined
  {
    hide InsertStatus;
  }
}
