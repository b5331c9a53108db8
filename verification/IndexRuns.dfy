/** Whole runs of an index: every update is saved before the next operation, and the
    index may be closed and opened again at any point. */
module IndexRuns {
  import opened DataOrder
  import opened OrderedMap
  import opened Codec
  import opened Forest
  import opened TreeStates
  import opened TreeOps
  import opened Statements
  import opened BptNodes
  import opened Bptrees
  import opened ScanSpec
  import opened RowCodec
  import opened TreeIterators
  import opened Indexes

  datatype Op =
    | InsertOp(entry: Entry)
    | DeleteOp(key: Bytes)
    | GetOp(key: Bytes)
    | ScanOp(ranges: seq<IndexRange>, pageSize: nat)
    | ReopenOp

  datatype Outcome =
    | Reported(status: Status)
    | Value(value: Bytes)
    | NoValue
    | Pages(pages: seq<seq<Entry>>)

  /** Keys fit twice into a node, values have a 32-bit length, ranges are half-open and
      pages hold something. */
  ghost predicate OpOk(op: Op) {
    match op
    case InsertOp(e) => |e.key| <= MAX_KEY_SIZE && |e.value| < UINT32_RANGE
    case ScanOp(ranges, pageSize) =>
      pageSize >= 1 && RangesOk(ranges)
    case _ => true
  }

  /** Ends of 32-bit length, and every range half-open. */
  ghost predicate RangesOk(ranges: seq<IndexRange>) {
    forall i :: 0 <= i < |ranges| ==> RangeProper(ranges[i]) && ranges[i].lowerOpen != ranges[i].upperOpen
  }

  // ---- the simple thing: a finite map --------------------------------------

  ghost function Apply(m: map<Bytes, Bytes>, op: Op): map<Bytes, Bytes> {
    match op
    case InsertOp(e) => if e.key in m then m else m[e.key := e.value]
    case DeleteOp(key) => m - {key}
    case _ => m
  }

  ghost function MapAfter(ops: seq<Op>): map<Bytes, Bytes> {
    if ops == [] then map[] else Apply(MapAfter(ops[..|ops| - 1]), ops[|ops| - 1])
  }

  /** The entries of a map in key order. */
  ghost function InKeyOrder(m: map<Bytes, Bytes>): (s: seq<Entry>)
    ensures Sorted(s) && ToMap(s) == m
  {
    SortedListExists(m);
    var s :| Sorted(s) && ToMap(s) == m; s
  }

  lemma {:induction false} SortedListExists(m: map<Bytes, Bytes>)
    ensures exists s :: Sorted(s) && ToMap(s) == m
    decreases |m|
  {
    hide DataCmp, ToMap, Emplace, Sorted;
    if m == map[] {
      EmptyList();
      assert Sorted([]) && ToMap([]) == m;
    } else {
      var k :| k in m;
      var rest := m - {k};
      assert |rest| < |m| by { assert rest.Keys == m.Keys - {k}; }
      SortedListExists(rest);
      var s :| Sorted(s) && ToMap(s) == rest;
      EmplaceSpec(s, Entry(k, m[k]));
      assert rest[k := m[k]] == m;
      assert ToMap(Emplace(s, Entry(k, m[k]))) == m;
    }
  }

  lemma EmptyList()
    ensures Sorted([]) && ToMap([]) == map[]
  {
  }

  /** The rows a list of ranges stands for: range after range, each in key order. */
  ghost function RowsOf(m: map<Bytes, Bytes>, ranges: seq<IndexRange>): seq<Entry>
    requires RangesOk(ranges)
  {
    if ranges == [] then [] else InRange(InKeyOrder(m), OptionsOf(ranges[0])) + RowsOf(m, ranges[1..])
  }

  ghost function Concat(pages: seq<seq<Entry>>): seq<Entry> {
    if pages == [] then [] else Concat(pages[..|pages| - 1]) + pages[|pages| - 1]
  }

  /** All rows in order; every page full but the last, which is short. */
  ghost predicate Paged(pages: seq<seq<Entry>>, rows: seq<Entry>, pageSize: nat) {
    && Concat(pages) == rows
    && (forall i :: 0 <= i < |pages| - 1 ==> |pages[i]| == pageSize)
    && (pages != [] ==> |pages[|pages| - 1]| < pageSize)
  }

  /** What the finite map `m` answers to an operation. */
  ghost predicate Answers(m: map<Bytes, Bytes>, op: Op, out: Outcome)
    requires OpOk(op)
  {
    match op
    case InsertOp(e) => out == Reported(if e.key in m then DuplicateKey else Ok)
    case DeleteOp(_) => out == Reported(Ok)
    case GetOp(key) => out == if key in m then Value(m[key]) else NoValue
    case ScanOp(ranges, pageSize) => out.Pages? && Paged(out.pages, RowsOf(m, ranges), pageSize)
    case ReopenOp => out == Reported(Ok)
  }

  // ---- the tree refines it -------------------------------------------------

  lemma AllSaved(t: Bptree)
    requires t.Valid() && Intact(t.st) && Settled(t.st) && t.st.unsaved == {}
    ensures Clean(t)
  {
  }

  /** The leaves hold the entries of the model, in key order. */
  lemma LeavesInKeyOrder(st: TreeState)
    requires LeavesInv(st)
    ensures Flatten(Views(st.leaves)) == InKeyOrder(Model(st))
  {
    hide WellFormed, Backed, ToMap, Flatten;
    FlattenSorted(Views(st.leaves));
    SortedUnique(Flatten(Views(st.leaves)), InKeyOrder(Model(st)));
  }

  ghost function AllOptions(ranges: seq<IndexRange>): seq<IteratorOptions>
    requires RangesOk(ranges)
  {
    seq(|ranges|, i requires 0 <= i < |ranges| => OptionsOf(ranges[i]))
  }

  lemma {:induction false} ScanAllIsRows(st: TreeState, ranges: seq<IndexRange>)
    requires LeavesInv(st) && RangesOk(ranges)
    ensures ScanAll(Views(st.leaves), AllOptions(ranges)) == RowsOf(Model(st), ranges)
  {
    hide WellFormed, Backed, Flatten, ToMap, ForestOk, Scan, InRange, InKeyOrder;
    if ranges != [] {
      LeavesInKeyOrder(st);
      HalfOpenScan(Views(st.leaves), OptionsOf(ranges[0]));
      assert AllOptions(ranges)[1..] == AllOptions(ranges[1..]);
      ScanAllIsRows(st, ranges[1..]);
    }
  }

  /** A statement is over: nothing awaits a save, and the description of the index has the
      largest node id, which is that of the tree. */
  ghost predicate AtRest(index: Index)
    reads index, index.tree, index.tree.ctx, index.tree.ctx.kv, index.tree.root, index.tree.root.children
  {
    && Clean(index.tree) && Fresh(index.tree.st)
    && index.maxTreeNodeId == index.tree.ctx.maxId && index.tree.st.keyLimit == MAX_KEY_SIZE
  }

  /** A refused row leaves nothing to save. */
  method InsertAndSave(index: Index, e: Entry) returns (out: Outcome)
    requires AtRest(index) && |e.key| <= MAX_KEY_SIZE && |e.value| < UINT32_RANGE
    modifies index, index.tree, index.tree.ctx, index.tree.ctx.kv, index.tree.root, index.tree.root.children
    ensures AtRest(index) && Model(index.tree.st) == Apply(old(Model(index.tree.st)), InsertOp(e))
    ensures Answers(old(Model(index.tree.st)), InsertOp(e), out)
    ensures forall c :: c in index.tree.root.children ==> c in old(index.tree.root.children) || fresh(c)
  {
    hide Intact, Fresh, WellFormed, Settled, Model, AfterSave, InsertReady, RowsReady, InsertedRows, LookupReady, LookupSaved,
         AfterRows;
    ghost var st0 := index.tree.st;
    SettledIsReady(st0, e.key);
    OneRow(st0, e);
    var s := index.Insert([e]);
    if s == Ok {
      SaveEmpties(index.tree.st);
      index.Save();
    }
    MaxIdIs(index.tree);
    AllSaved(index.tree);
    out := Reported(s);
  }

  lemma OneRow(st: TreeState, e: Entry)
    requires Intact(st) && Fresh(st) && Settled(st) && RowSized(st, e) && st.keyLimit == MAX_KEY_SIZE
    ensures RowsSized(st, [e]) && RowsReady(st, [e])
    ensures InsertedRows(Model(st), [e]) ==
            (Apply(Model(st), InsertOp(e)), if e.key in Model(st) then DuplicateKey else Ok)
    ensures var (st', s) := AfterRows(st, [e]);
            && s != Undefined && st'.keyLimit == st.keyLimit
            && (s != Ok ==> Settled(st') && st'.unsaved == st.unsaved && st'.maxId == st.maxId)
  {
    hide Intact, Fresh, AfterInsert, InsertStatus, InsertReady, TakesFreeId, Model, Settled, Located;
    SettledIsReady(st, e.key);
    FreshIsFree(st, e);
    SmallRowsFit(st, [e]) by { assert WellFormed(st) by { IntactParts(st); } }
    InsertStatusIs(st, e);
    SameLimit(st, e);
    if e.key in Model(st) { RefusedIsSettled(st, e.key); }
  }

  lemma RefusedIsSettled(st: TreeState, key: Bytes)
    requires Intact(st) && Settled(st) && key in Model(st)
    ensures var st' := Located(st, key);
            Settled(st') && st'.unsaved == st.unsaved && st'.maxId == st.maxId && st'.keyLimit == st.keyLimit
  {
    hide LeavesInv, RootSynced, LeafSettled, Contents, LoadLeaf, Route;
    if st.leaves == [] {
      NothingThere(key);
    } else {
      SettledIsReady(st, key);
      LoadKeeps(st, Route(st.leaves, key));
    }
  }

  lemma OneKey(st: TreeState, key: Bytes)
    requires LookupReady(st, key) && LookupSaved(st, key)
    ensures KeysReady(st, [key]) && DeletedKeys(Model(st), [key]) == Model(st) - {key}
    ensures AfterKeys(st, [key]).0.keyLimit == st.keyLimit
  {
  }

  lemma MaxIdIs(t: Bptree)
    requires t.Valid()
    ensures t.ctx.maxId == t.st.maxId
  {
  }

  lemma SaveEmpties(st: TreeState)
    ensures AfterSave(st).unsaved == {} && AfterSave(st).keyLimit == st.keyLimit
  {
  }

  method DeleteAndSave(index: Index, key: Bytes) returns (out: Outcome)
    requires AtRest(index)
    modifies index, index.tree, index.tree.ctx, index.tree.ctx.kv, index.tree.root, index.tree.root.children
    ensures AtRest(index) && Model(index.tree.st) == Apply(old(Model(index.tree.st)), DeleteOp(key))
    ensures Answers(old(Model(index.tree.st)), DeleteOp(key), out)
    ensures forall c :: c in index.tree.root.children ==> c in old(index.tree.root.children)
  {
    hide Intact, Fresh, WellFormed, Settled, Model, AfterSave, InsertReady, LookupReady, LookupSaved, KeysReady,
         DeletedKeys, AfterKeys;
    SettledIsReady(index.tree.st, key);
    OneKey(index.tree.st, key);
    var s := index.Delete([key]);
    SaveEmpties(index.tree.st);
    index.Save();
    MaxIdIs(index.tree);
    AllSaved(index.tree);
    out := Reported(s);
  }

  method Get(t: Bptree, key: Bytes) returns (out: Outcome)
    requires Clean(t)
    modifies t, t.root.children
    ensures Clean(t) && Model(t.st) == old(Model(t.st)) && t.root.children == old(t.root.children)
    ensures t.st.keyLimit == old(t.st.keyLimit) && t.ctx.maxId == old(t.ctx.maxId) && (old(Fresh(t.st)) ==> Fresh(t.st))
    ensures Answers(old(Model(t.st)), GetOp(key), out)
  {
    hide Intact, Fresh, WellFormed, Settled, Model, AfterGet, LookupReady, LookupSaved, GetStatus, Find, Has, LowerBound;
    GetKeepsAll(t.st, key);
    var s, value := t.GetItem(key);
    AllSaved(t);
    out := if s == Ok then Value(value) else NoValue;
  }

  lemma GetKeepsAll(st: TreeState, key: Bytes)
    requires Intact(st) && Settled(st) && st.unsaved == {}
    requires forall i :: 0 <= i < |st.leaves| ==> st.leaves[i].id in st.nodes
    ensures LookupReady(st, key) && LookupSaved(st, key)
    ensures var st' := AfterGet(st, key);
            && Intact(st') && (Fresh(st) ==> Fresh(st'))
            && Settled(st') && st'.unsaved == {} && st'.keyLimit == st.keyLimit && Model(st') == Model(st)
  {
    hide Intact, Fresh, Settled, Model, AfterGet, LookupReady, LookupSaved, Find;
    SettledIsReady(st, key);
    GetMeaning(st, key);
    GetUnsavesNothing(st, key);
  }

  lemma GetUnsavesNothing(st: TreeState, key: Bytes)
    ensures AfterGet(st, key).unsaved == st.unsaved && AfterGet(st, key).keyLimit == st.keyLimit
  {
  }

  /** Drains a paging iterator over the ranges. */
  method ScanRanges(t: Bptree, ranges: seq<IndexRange>, pageSize: nat) returns (pages: seq<seq<Entry>>)
    requires Clean(t) && pageSize >= 1 && RangesOk(ranges)
    modifies t, t.root.children
    ensures Clean(t) && SameLeaves(t) && t.root.children == old(t.root.children)
    ensures Paged(pages, ScanAll(LeavesOf(t), AllOptions(ranges)), pageSize)
  {
    hide Clean, BaseIterator.Left, BaseIterator.Running, ScanAll;
    var it := OpenRanges(t, ranges, pageSize);
    pages := [];
    ghost var rows := it.Left();
    if it.code != Ok { it.EndedLeft(); }
    while it.code == Ok
      invariant it.Running() && it.tree == t && it.pageSize == pageSize
      invariant SameLeaves(t) && t.root.children == old(t.root.children)
      invariant Concat(pages) + it.Left() == rows
      invariant it.code == Ok ==> forall i :: 0 <= i < |pages| ==> |pages[i]| == pageSize
      invariant it.code != Ok ==> it.Left() == [] && Paged(pages, rows, pageSize)
      invariant it.treeIt != null ==> fresh(it.treeIt)
      decreases it.code == Ok, |it.Left()|
    {
      NextPage(it, pages, rows);
      pages := pages + [it.dataSegment];
    }
    RunningIsReady(it);
  }

  /** What the table scan of a plan hands out: it opens the iterator anew for every chunk, so
      every chunk is the first page of its one range, and no row behind that page is ever seen. */
  method Chunks(t: Bptree, range: IndexRange, pageSize: nat, count: nat) returns (chunks: seq<seq<Entry>>)
    requires Clean(t) && RangeProper(range)
    modifies t, t.root.children
    ensures Clean(t) && SameLeaves(t) && t.root.children == old(t.root.children) && |chunks| == count
    ensures var rows := Scan(LeavesOf(t), OptionsOf(range));
            forall i :: 0 <= i < count ==> chunks[i] == rows[..if |rows| < pageSize then |rows| else pageSize]
  {
    hide Clean, BaseIterator.Left, BaseIterator.Running, Scan, ScanAll;
    var it := new BaseIterator(t, pageSize);
    it.AddRange(range);
    chunks := [];
    ghost var rows := Scan(LeavesOf(t), OptionsOf(range));
    ScanOne(LeavesOf(t), OptionsOf(range));
    assert it.itOps[0..] == [OptionsOf(range)];
    while |chunks| < count
      invariant |chunks| <= count && Clean(t) && it.tree == t && it.pageSize == pageSize && it.itOps == [OptionsOf(range)]
      invariant SameLeaves(t) && t.root.children == old(t.root.children) && (it.treeIt != null ==> fresh(it.treeIt))
      invariant if |chunks| == 0 then it.currentOpIdx == 0 && it.code == Ok && it.dataSegment == []
                else it.currentOpIdx == 1 && it.dataSegment == rows[..if |rows| < pageSize then |rows| else pageSize]
      invariant forall i :: 0 <= i < |chunks| ==> chunks[i] == rows[..if |rows| < pageSize then |rows| else pageSize]
    {
      Generate(it, rows);
      chunks := chunks + [it.dataSegment];
    }
  }

  /** One chunk. */
  method Generate(it: BaseIterator, ghost rows: seq<Entry>)
    requires Clean(it.tree) && |it.itOps| == 1 && rows == ScanAll(LeavesOf(it.tree), it.itOps[0..])
    requires if it.currentOpIdx == 0 then it.code == Ok && it.dataSegment == [] else it.currentOpIdx == 1
    modifies it`currentOpIdx, it`treeIt, it`code, it`dataSegment, it.treeIt, it.tree, it.tree.root.children
    ensures Clean(it.tree) && it.currentOpIdx == 1 && (it.treeIt == old(it.treeIt) || fresh(it.treeIt))
    ensures SameLeaves(it.tree) && it.tree.root.children == old(it.tree.root.children)
    ensures it.dataSegment == if old(it.currentOpIdx) == 0 then rows[..if |rows| < it.pageSize then |rows| else it.pageSize]
                              else old(it.dataSegment)
  {
    hide Clean, BaseIterator.Left, BaseIterator.Running, ScanAll;
    ghost var more := it.itOps[it.currentOpIdx..];
    var s := it.Open();
    if it.code != Ok { it.EndedLeft(); }
    it.Next();
    RunningIsReady(it);
  }

  lemma ScanOne(vs: seq<LeafView>, o: IteratorOptions)
    ensures ScanAll(vs, [o]) == Scan(vs, o)
  {
    assert [o][1..] == [];
  }

  lemma RunningIsReady(it: BaseIterator)
    requires it.Running()
    ensures Clean(it.tree) && it.currentOpIdx <= |it.itOps|
  {
  }

  method OpenRanges(t: Bptree, ranges: seq<IndexRange>, pageSize: nat) returns (it: BaseIterator)
    requires Clean(t) && RangesOk(ranges)
    modifies t, t.root.children
    ensures fresh(it) && it.tree == t && it.pageSize == pageSize && it.Running()
    ensures it.treeIt != null ==> fresh(it.treeIt)
    ensures SameLeaves(t) && t.root.children == old(t.root.children)
    ensures it.Left() == ScanAll(LeavesOf(t), AllOptions(ranges))
    ensures it.code == Ok || it.code == IteratorEnd
  {
    hide Clean, BaseIterator.Left, ScanAll;
    it := new BaseIterator(t, pageSize);
    for i := 0 to |ranges|
      invariant it.itOps == AllOptions(ranges[..i]) && it.currentOpIdx == 0 && it.code == Ok && it.treeIt == null
      modifies it
    {
      assert AllOptions(ranges[..i + 1]) == AllOptions(ranges[..i]) + [OptionsOf(ranges[i])];
      it.AddRange(ranges[i]);
    }
    assert ranges[..|ranges|] == ranges && it.itOps[0..] == AllOptions(ranges);
    var s := it.Open();
  }

  /** One page: full, or the short last one. */
  method NextPage(it: BaseIterator, ghost pages: seq<seq<Entry>>, ghost rows: seq<Entry>)
    requires it.Running() && it.code == Ok && it.pageSize >= 1
    requires Concat(pages) + it.Left() == rows
    requires forall i :: 0 <= i < |pages| ==> |pages[i]| == it.pageSize
    modifies it`currentOpIdx, it`treeIt, it`code, it`dataSegment, it.treeIt, it.tree, it.tree.root.children
    ensures it.Running() && (it.treeIt == old(it.treeIt) || fresh(it.treeIt))
    ensures SameLeaves(it.tree) && it.tree.root.children == old(it.tree.root.children)
    ensures Concat(pages + [it.dataSegment]) + it.Left() == rows
    ensures it.code == Ok ==> |it.dataSegment| == it.pageSize && |it.Left()| < old(|it.Left()|)
    ensures it.code != Ok ==> it.Left() == [] && Paged(pages + [it.dataSegment], rows, it.pageSize)
  {
    hide Clean, BaseIterator.Left, BaseIterator.Running, ScanAll;
    ghost var before := it.Left();
    it.Next();
    ConcatSnoc(pages, it.dataSegment);
    assert it.dataSegment + it.Left() == before;
    assert Concat(pages) + (it.dataSegment + it.Left()) == (Concat(pages) + it.dataSegment) + it.Left();
    if it.code != Ok {
      IterationEnds(it);
      assert Concat(pages + [it.dataSegment]) + [] == Concat(pages + [it.dataSegment]);
    }
  }

  lemma IterationEnds(it: BaseIterator)
    requires it.Running() && it.code != Ok
    ensures it.Left() == [] && it.code == IteratorEnd
  {
  }

  lemma ConcatSnoc(pages: seq<seq<Entry>>, page: seq<Entry>)
    ensures Concat(pages + [page]) == Concat(pages) + page
  {
  }

  // ---- runs ----------------------------------------------------------------

  ghost function EmptyState(): TreeState { TreeState(0, EMPTY_STAT, [], {}, map[], 0, MAX_KEY_SIZE) }

  lemma EmptyStateOk()
    ensures Inv(EmptyState()) && Model(EmptyState()) == map[]
  {
  }

  /** Closes the index and opens it again, with the largest node id carried over. */
  method Reopen(index: Index) returns (again: Index)
    requires AtRest(index)
    ensures fresh(again) && fresh(again.tree) && fresh(again.tree.ctx) && fresh(again.tree.root)
    ensures forall c :: c in again.tree.root.children ==> fresh(c)
    ensures again.tree.ctx.kv == index.tree.ctx.kv
    ensures AtRest(again) && Model(again.tree.st) == Model(index.tree.st)
  {
    hide Intact, Fresh, WellFormed, RootSynced, Settled, Model;
    ghost var st := index.tree.st;
    IntactParts(st);
    again := new Index(index.tree.ctx.kv, index.tree.root.id, index.maxTreeNodeId, st);
    AllSaved(again.tree);
  }

  /** Every run of operations, from an empty index on, gets the answers of a finite map. */
  method Run(ops: seq<Op>) returns (outs: seq<Outcome>)
    requires forall i :: 0 <= i < |ops| ==> OpOk(ops[i])
    ensures |outs| == |ops|
    ensures forall i :: 0 <= i < |ops| ==> Answers(MapAfter(ops[..i]), ops[i], outs[i])
  {
    hide AtRest, Clean, Answers, Apply, Contents, OpOk, Settled, Intact;
    var index := NewIndex();
    outs := [];
    for n := 0 to |ops|
      invariant |outs| == n && AtRest(index) && Model(index.tree.st) == MapAfter(ops[..n])
      invariant fresh(index) && fresh(index.tree) && fresh(index.tree.ctx) && fresh(index.tree.ctx.kv) && fresh(index.tree.root)
      invariant forall c :: c in index.tree.root.children ==> fresh(c)
      invariant forall i :: 0 <= i < n ==> Answers(MapAfter(ops[..i]), ops[i], outs[i])
    {
      assert ops[..n + 1][..n] == ops[..n];
      forall i | 0 <= i < |index.tree.root.children| ensures fresh(index.tree.root.children[i]) {
        assert index.tree.root.children[i] in index.tree.root.children;
      }
      var out;
      index, out := Perform(index, ops[n]);
      outs := outs + [out];
    }
  }

  /** A new index on an empty store. */
  method NewIndex() returns (index: Index)
    ensures AtRest(index) && Model(index.tree.st) == map[]
    ensures fresh(index) && fresh(index.tree) && fresh(index.tree.ctx) && fresh(index.tree.ctx.kv) && fresh(index.tree.root)
    ensures forall c :: c in index.tree.root.children ==> fresh(c)
  {
    hide Contents;
    EmptyStateOk();
    var kv := new KvStorage();
    index := new Index(kv, 0, 0, EmptyState());
    ReopenKeeps(EmptyState(), 0);
    AllSaved(index.tree);
  }

  /** One operation, with its save. */
  method Perform(index: Index, op: Op) returns (index': Index, out: Outcome)
    requires AtRest(index) && OpOk(op)
    modifies index, index.tree, index.tree.ctx, index.tree.ctx.kv, index.tree.root, index.tree.root.children
    ensures AtRest(index') && index'.tree.ctx.kv == index.tree.ctx.kv
    ensures Model(index'.tree.st) == Apply(old(Model(index.tree.st)), op) && Answers(old(Model(index.tree.st)), op, out)
    ensures index' == index
            || (fresh(index') && fresh(index'.tree) && fresh(index'.tree.ctx) && fresh(index'.tree.root))
    ensures forall c :: c in index'.tree.root.children ==> c in old(index.tree.root.children) || fresh(c)
  {
    hide Clean, Contents;
    index' := index;
    match op {
      case InsertOp(e) => out := InsertAndSave(index, e);
      case DeleteOp(key) => out := DeleteAndSave(index, key);
      case GetOp(key) => out := Get(index.tree, key);
      case ScanOp(ranges, pageSize) => out := Scanned(index.tree, ranges, pageSize);
      case ReopenOp =>
        index' := Reopen(index);
        out := Reported(Ok);
    }
  }

  method Scanned(t: Bptree, ranges: seq<IndexRange>, pageSize: nat) returns (out: Outcome)
    requires Clean(t) && OpOk(ScanOp(ranges, pageSize))
    modifies t, t.root.children
    ensures Clean(t) && Model(t.st) == old(Model(t.st)) && t.root.children == old(t.root.children)
    ensures t.st.keyLimit == old(t.st.keyLimit) && t.ctx.maxId == old(t.ctx.maxId) && (old(Fresh(t.st)) ==> Fresh(t.st))
    ensures Answers(old(Model(t.st)), ScanOp(ranges, pageSize), out)
  {
    hide Settled, Contents, Paged, RowsOf, ScanAll, LeavesInv, RootSynced;
    ScanAllIsRows(t.st, ranges);
    var pages := ScanRanges(t, ranges, pageSize);
    out := Pages(pages);
  }
}
