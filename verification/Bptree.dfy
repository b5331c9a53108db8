/** The B+ tree of an index: one interior level, the root, over a row of leaves. */
module Bptrees {
  import opened DataOrder
  import opened OrderedMap
  import opened Codec
  import opened LeafCodec
  import opened Forest
  import opened TreeStates
  import opened TreeOps
  import opened BptNodes

  /** A stored record and what it decodes to. */
  ghost predicate Decodes(record: NodeRecord, saved: SavedNode) {
    match saved
    case SavedLeaf(es) =>
      record.LeafRecord? && Decodable(record.keys, record.values) && DecodeEntries(record.keys, record.values) == es
    case SavedRoot(refs) => record.InteriorRecord? && record.children == refs
  }

  ghost predicate Apart(cs: seq<BptNode>) { forall i, j :: 0 <= i < j < |cs| ==> cs[i] != cs[j] }

  lemma ApartDrop(cs: seq<BptNode>, i: nat)
    requires Apart(cs) && i < |cs|
    ensures Apart(cs[..i] + cs[i + 1..])
  {
    var ds := cs[..i] + cs[i + 1..];
    forall a, b | 0 <= a < b < |ds| ensures ds[a] != ds[b] {
      assert cs[if a < i then a else a + 1] != cs[if b < i then b else b + 1];
    }
  }

  lemma UnlinkedLeaves(st: TreeState, i: nat)
    requires i < |st.leaves|
    ensures var ms, gone := UnlinkStep(st, i).leaves, FirstMax(st.leaves, st.leaves[i].stat.maxKey) == i;
            && |ms| == (if gone then |st.leaves| - 1 else |st.leaves|)
            && forall j :: 0 <= j < |ms| ==>
                 var l := st.leaves[if gone && j >= i then j + 1 else j]; ms[j] == l.(listed := ms[j].listed)
  {
    hide FirstMax;
  }

  /** Only nodes of the tree are to be saved, each under its id. */
  ghost predicate Collected(unsaved: map<nat, BptNode>, root: BptNode, cs: seq<BptNode>) {
    forall k :: k in unsaved ==> unsaved[k].id == k && (unsaved[k] == root || unsaved[k] in cs)
  }

  ghost predicate Held(unsaved: map<nat, BptNode>, c: BptNode) { c.id in unsaved && unsaved[c.id] == c }

  /** The leaves that the state says are to be saved are those. */
  ghost predicate ListedAre(unsaved: map<nat, BptNode>, cs: seq<BptNode>, ls: seq<LeafState>) {
    |cs| == |ls| && forall i :: 0 <= i < |cs| ==> cs[i].id == ls[i].id && (ls[i].listed <==> Held(unsaved, cs[i]))
  }

  lemma SameListed(unsaved: map<nat, BptNode>, cs: seq<BptNode>, ls: seq<LeafState>, ms: seq<LeafState>)
    requires ListedAre(unsaved, cs, ls) && |ls| == |ms|
    requires forall i :: 0 <= i < |ls| ==> ms[i].id == ls[i].id && ms[i].listed == ls[i].listed
    ensures ListedAre(unsaved, cs, ms)
  {
  }

  lemma NoneListed(cs: seq<BptNode>, ls: seq<LeafState>, ms: seq<LeafState>)
    requires |cs| == |ls| == |ms|
    requires forall i :: 0 <= i < |ls| ==> ms[i].id == ls[i].id == cs[i].id && !ms[i].listed
    ensures ListedAre(map[], cs, ms)
  {
  }

  lemma CollectListed(unsaved: map<nat, BptNode>, cs: seq<BptNode>, ls: seq<LeafState>, i: nat)
    requires ListedAre(unsaved, cs, ls) && i < |cs| && Apart(cs)
    ensures ListedAre(unsaved[cs[i].id := cs[i]], cs, Listed(ls, i))
  {
  }

  lemma CollectRoot(unsaved: map<nat, BptNode>, root: BptNode, cs: seq<BptNode>, ls: seq<LeafState>)
    requires Collected(unsaved, root, cs) && ListedAre(unsaved, cs, ls)
    requires forall i :: 0 <= i < |cs| ==> cs[i].id != root.id
    ensures Collected(unsaved[root.id := root], root, cs) && ListedAre(unsaved[root.id := root], cs, ls)
  {
  }

  /** A new node is put among the others and collected, and then the node at `i` is, too. */
  lemma SplitListed(unsaved: map<nat, BptNode>, root: BptNode, cs: seq<BptNode>, ls: seq<LeafState>, i: nat, right: BptNode, id: nat)
    requires Collected(unsaved, root, cs) && ListedAre(unsaved, cs, ls) && Apart(cs)
    requires i < |cs| && |ls[i].kvs| >= 2 && right !in cs && right != root && right.id == id
    ensures var at, la := RightAt(ls, i), LeftAt(ls, i);
            var cs', ls', unsaved' := cs[..at] + [right] + cs[at..], SplitLeaves(ls, i, id), unsaved[id := right][cs[i].id := cs[i]];
            && at < |ls'| && la < |ls'| && ls'[at].id == id && ls'[la].id == cs[i].id
            && Collected(unsaved', root, cs') && ListedAre(unsaved', cs', Listed(Listed(ls', at), la)) && Apart(cs')
  {
    hide LeftHalf, RightHalf, FirstAbove, Listed, RightAt, LeftAt;
    var at, la, l, r := RightAt(ls, i), LeftAt(ls, i), LeftHalf(ls[i]), RightHalf(ls[i], id);
    HalfIds(ls[i], id);
    SplitPlaces(ls, i, id);
    PutIn(cs, at, right);
    var cs', ls' := cs[..at] + [right] + cs[at..], SplitLeaves(ls, i, id);
    SplitHeld(unsaved, root, cs, ls, i, at, right, cs', ls');
    CollectListed(unsaved, cs', ls', at);
    CollectListed(unsaved[id := right], cs', Listed(ls', at), la);
  }

  lemma SplitPlaces(ls: seq<LeafState>, i: nat, id: nat)
    requires i < |ls| && |ls[i].kvs| >= 2
    ensures var ms, at := SplitLeaves(ls, i, id), RightAt(ls, i);
            && LeftAt(ls, i) == (if at <= i then i + 1 else i)
            && ms[at].id == id && !ms[at].listed
            && (forall j :: 0 <= j < at ==> ms[j].id == ls[j].id && ms[j].listed == ls[j].listed)
            && (forall j :: at < j < |ms| ==> ms[j].id == ls[j - 1].id && ms[j].listed == ls[j - 1].listed)
  {
    hide LeftHalf, RightHalf, FirstAbove;
    var l, r := LeftHalf(ls[i]), RightHalf(ls[i], id);
    HalfIds(ls[i], id);
    PutIn(ls[i := l], RightAt(ls, i), r);
  }

  lemma SplitHeld(unsaved: map<nat, BptNode>, root: BptNode, cs: seq<BptNode>, ls: seq<LeafState>, i: nat, at: nat,
                  right: BptNode, cs': seq<BptNode>, ls': seq<LeafState>)
    requires Collected(unsaved, root, cs) && ListedAre(unsaved, cs, ls) && Apart(cs)
    requires i < |cs| && at <= |cs| && right !in cs && right != root && |cs'| == |ls'| == |cs| + 1 && cs'[at] == right
    requires (forall j :: 0 <= j < at ==> cs'[j] == cs[j]) && (forall j :: at < j < |cs'| ==> cs'[j] == cs[j - 1])
    requires ls'[at].id == right.id && !ls'[at].listed
    requires forall j :: 0 <= j < at ==> ls'[j].id == ls[j].id && ls'[j].listed == ls[j].listed
    requires forall j :: at < j < |ls'| ==> ls'[j].id == ls[j - 1].id && ls'[j].listed == ls[j - 1].listed
    ensures ListedAre(unsaved, cs', ls') && Apart(cs')
    ensures Collected(unsaved[right.id := right][cs[i].id := cs[i]], root, cs')
  {
    forall c | c in cs || c == right ensures c in cs' {
      if c != right {
        var j :| 0 <= j < |cs| && cs[j] == c;
        assert cs'[if j < at then j else j + 1] == c;
      }
    }
  }

  /** A node leaves the set, and possibly the tree. */
  lemma UncollectListed(unsaved: map<nat, BptNode>, root: BptNode, cs: seq<BptNode>, ls: seq<LeafState>, i: nat)
    requires Collected(unsaved, root, cs) && ListedAre(unsaved, cs, ls) && i < |cs|
    ensures var rest, ms := unsaved - {cs[i].id}, Unlisted(ls, ls[i].id);
            && Collected(rest, root, cs) && ListedAre(rest, cs, ms)
            && Collected(rest, root, cs[..i] + cs[i + 1..]) && ListedAre(rest, cs[..i] + cs[i + 1..], ms[..i] + ms[i + 1..])
  {
    var rest, ds := unsaved - {cs[i].id}, cs[..i] + cs[i + 1..];
    forall k | k in rest ensures rest[k] == root || rest[k] in ds {
      if rest[k] in cs {
        var j :| 0 <= j < |cs| && cs[j] == rest[k];
        assert ds[if j < i then j else j - 1] == cs[j];
      }
    }
  }

  class Bptree {
    const ctx: TreeCtx
    const root: BptNode
    /** The tree as a value. */
    ghost var st: TreeState

    constructor (ctx: TreeCtx, root: BptNode, ghost st: TreeState)
      ensures this.ctx == ctx && this.root == root && this.st == st
    {
      this.ctx, this.root, this.st := ctx, root, st;
    }

    ghost predicate LeafLinked(c: BptNode, l: LeafState)
      reads c
    {
      && c.isLeaf && !c.isRoot && c.parent == root && c.ctx == ctx && c.children == []
      && c.id == l.id && c.kvs == l.kvs && c.writeKvs.Keys == l.written && c.stat == l.stat
    }

    ghost predicate RootLinked(id: nat, stat: NodeStatistics)
      reads root
    {
      && root.isRoot && !root.isLeaf && root.parent == null && root.ctx == ctx && root.kvs == []
      && root.id == id && root.stat == stat
    }

    ghost predicate LeavesLinked(ls: seq<LeafState>)
      reads root, root.children
    {
      && |root.children| == |ls| && Apart(root.children)
      && forall i :: 0 <= i < |root.children| ==> LeafLinked(root.children[i], ls[i])
    }

    ghost predicate CtxLinked(ls: seq<LeafState>, unsaved: set<nat>, maxId: nat)
      reads ctx, root
    {
      && ctx.unsaved.Keys == unsaved && ctx.maxId == maxId
      && Collected(ctx.unsaved, root, root.children) && ListedAre(ctx.unsaved, root.children, ls)
    }

    ghost predicate StoreLinked(nodes: map<nat, SavedNode>)
      reads ctx.kv
    {
      && ctx.kv.nodes.Keys == nodes.Keys
      && forall k :: k in ctx.kv.nodes ==> Decodes(ctx.kv.nodes[k], nodes[k])
    }

    /** The objects in memory and the records in storage are those of `st`. */
    ghost predicate Linked()
      reads this, ctx, ctx.kv, root, root.children
    {
      && RootLinked(st.rootId, st.rootStat)
      && LeavesLinked(st.leaves)
      && CtxLinked(st.leaves, st.unsaved, st.maxId)
      && StoreLinked(st.nodes)
    }

    ghost predicate Valid()
      reads this, ctx, ctx.kv, root, root.children
    {
      Linked() && WellFormed(st)
    }

    // ---- loading -----------------------------------------------------------

    /** Merges the stored record of a leaf, if there is one, into what it holds in memory. */
    method LoadChild(c: BptNode, ghost i: nat) returns (s: Status)
      requires Valid() && i < |root.children| && c == root.children[i]
      modifies this`st, c`kvs
      ensures Valid() && st == LoadLeaf(old(st), i)
      ensures s == if c.id in st.nodes then Ok else StorageKvNotFound
    {
      hide WellFormed, RootLinked, StoreLinked, Decodes, EmplaceAll, DecodeEntries, Loadable, Collected, ListedAre;
      SameListed(ctx.unsaved, root.children, st.leaves, LoadLeaf(st, i).leaves);
      ReadLeaf(i);
      ChildrenDiffer(i);
      LoadWf(st, i);
      s := c.LoadNodeFromKvStorage();
      st := LoadLeaf(st, i);
    }

    // ---- saving ------------------------------------------------------------

    /** Writes every unsaved node. */
    method Save()
      requires Valid()
      modifies this`st, ctx`unsaved, ctx.kv
      ensures Valid() && st == AfterSave(old(st))
    {
      hide WellFormed, RootLinked, LeavesLinked, Decodes, SavedOf, AfterSave, BptNode.Record;
      SaveWf(st);
      AfterSaveFields(st);
      SameLinks(st.leaves, AfterSave(st).leaves);
      NoneListed(root.children, st.leaves, AfterSave(st).leaves);
      ghost var nodes := ctx.kv.nodes;
      ghost var records := RecordsToWrite();
      ctx.PullUnsavedTreeNode();
      SaveLinks(nodes, ctx.kv.nodes, records, st);
      st := AfterSave(st);
      assert ctx.unsaved.Keys == {};
    }

    lemma RecordsToWrite() returns (records: map<nat, NodeRecord>)
      requires Valid()
      ensures records.Keys == ctx.unsaved.Keys
      ensures forall k :: k in records ==> records[k] == ctx.unsaved[k].Record() && Decodes(records[k], SavedOf(st, k))
    {
      hide WellFormed, RootLinked, LeavesLinked, StoreLinked, Decodes, SavedOf;
      records := map k | k in ctx.unsaved :: ctx.unsaved[k].Record();
      forall k | k in records ensures Decodes(records[k], SavedOf(st, k)) { RecordDecodes(k); }
    }

    /** The record written for an unsaved node decodes to what the state says. */
    lemma RecordDecodes(k: nat)
      requires Valid() && k in ctx.unsaved
      ensures Decodes(ctx.unsaved[k].Record(), SavedOf(st, k))
    {
      hide RootInv, LeafWf, SavedOf, Decodable, DecodeEntries;
      var node := ctx.unsaved[k];
      if node == root {
        SavedRootOf(st);
        assert Refs(root.children) == RootRecord(st).children;
      } else {
        var i :| 0 <= i < |root.children| && root.children[i] == node;
        OwnIdOf(i);
        SavedLeafOf(st, i);
        HeldIsEncodable(st, i);
        LeafRoundTrip(node.kvs);
      }
    }

    // ---- insertion ---------------------------------------------------------

    /** One round of the descent: the child to continue with, re-read or newly made. */
    method ChildForInsert(key: Bytes) returns (child: BptNode, s: Status)
      requires Valid()
      modifies this`st, ctx`maxId, root`children, root.children
      ensures Valid() && st == Located(old(st), key)
      ensures Touched(old(st), key) < |root.children|
      ensures child == root.children[Touched(old(st), key)] && child.isLeaf && OnlyAt(Touched(old(st), key))
      ensures if old(st).leaves == [] then root.children == [child] && fresh(child)
              else root.children == old(root.children)
      ensures s == Ok || s == StorageKvNotFound
    {
      hide WellFormed;
      if root.children != [] {
        var i := FirstMaxNotBelow(root.children, key);
        FirstMaxAgrees(key);
        i := if i == |root.children| then i - 1 else i;
        child := root.children[i];
        ChildrenDiffer(i);
        s := LoadChild(child, i);
      } else {
        NewLeafWf(st);
        child := root.NewMutableLeafChild();
        st := Located(st, key);
        s := Ok;
      }
    }

    /** The bottom-up round of an update at the root. An insertion would go on to split a root
        that is due for it. */
    method FixRoot(isAdd: bool) returns (due: bool)
      requires Linked() && WellFormed(st) && st.leaves != []
      modifies this`st, ctx`unsaved, root`stat
      ensures due <==> isAdd && RootDue(TouchRoot(old(st), true))
      ensures !due ==> Linked() && st == TouchRoot(old(st), isAdd)
    {
      hide WellFormed, StoreLinked, SplitDue, LeafLinked, RangeStat, Collected, ListedAre, Apart;
      ChildrenAreNotRoot(st.leaves);
      ChildrenHaveOtherIds();
      OuterKeys();
      CollectRoot(ctx.unsaved, root, root.children, st.leaves);
      root.UpdateStatByRangeChange(isAdd);
      due := isAdd && root.NeedSplit();
      if due { return; }
      ctx.CollectUnsavedTreeNode(root);
      st := TouchRoot(st, isAdd);
    }

    lemma OuterKeys()
      requires LeavesLinked(st.leaves) && st.leaves != []
      ensures var cs, last := root.children, |st.leaves| - 1;
              && |cs| == last + 1
              && cs[0].stat.minKey == st.leaves[0].stat.minKey && cs[last].stat.maxKey == st.leaves[last].stat.maxKey
    {
    }

    lemma ChildrenHaveOtherIds()
      requires RootLinked(st.rootId, st.rootStat) && LeavesLinked(st.leaves) && WellFormed(st)
      ensures forall i :: 0 <= i < |root.children| ==> root.children[i].id != root.id
    {
      forall i | 0 <= i < |root.children| ensures root.children[i].id != root.id { OwnIdOf(i); }
    }

    /** Inserts a pair, or reports a duplicate, as the re-read leaf has it. When re-reading
        changes nothing, that is a duplicate exactly when the tree holds the key. A root that
        had to be split would be cut by the number of its pairs, which it has none of: nothing
        is known of what is left then. */
    method Insert(key: Bytes, value: Bytes) returns (s: Status)
      requires Valid() && |key| <= st.keyLimit && |value| < UINT32_RANGE
      modifies this`st, ctx, root, root.children
      ensures s == InsertStatus(old(st), Entry(key, value))
      ensures s != Undefined ==> Valid() && st == Inserted(old(st), Entry(key, value))
      ensures s != Undefined && old(Intact(st) && InsertReady(st, key) && TakesFreeId(st, Entry(key, value))) ==>
                && Intact(st) && (old(Fresh(st)) ==> Fresh(st)) && s == (if key in old(Model(st)) then DuplicateKey else Ok)
                && Model(st) == if s == Ok then old(Model(st))[key := value] else old(Model(st))
      ensures forall c :: c in root.children ==> c in old(root.children) || fresh(c)
    {
      hide Intact, Fresh, WellFormed, InsertReady, TakesFreeId, RootLinked, LeavesLinked, CtxLinked, StoreLinked, Contents,
           Placed, MaybeSplit, LeafFixed, StatPut, EntryPut, Located, Touched, TouchRoot, Has, RootDue;
      ghost var e, i, st0 := Entry(key, value), Touched(st, key), st;
      InsertOutcome(st0, e);
      var path := DescendForInsert(key);
      WrittenIsHeld(st, i, key);
      s := InsertIntoLeaf(path[1], i, key, value);
      if s != Ok { return; }
      InsertRounds(st0, e);
      ghost var leaf := path[1];
      while path != []
        invariant path == [root, leaf] || path == [root] || path == []
        invariant Linked() && forall c :: c in root.children ==> c in old(root.children) || fresh(c)
        invariant |path| == 2 ==> OnlyAt(i) && leaf == root.children[i] && leaf.isLeaf
                                  && st == EntryPut(Located(st0, key), i, e)
        invariant |path| == 1 ==> st == LeafFixed(StatPut(EntryPut(Located(st0, key), i, e), i, e), i)
        invariant |path| == 0 ==> st == AfterInsert(st0, e) && !RootDue(AfterInsert(st0, e))
        decreases |path|
      {
        var cursor := path[|path| - 1];
        path := path[..|path| - 1];
        if cursor.isLeaf {
          FixLeafAfterInsert(cursor, i, key, value);
        } else {
          var due := FixRoot(true);
          if due { return Undefined; }
        }
      }
    }

    /** The descent of an insertion: the root, then the leaf the key belongs to. */
    method DescendForInsert(key: Bytes) returns (path: seq<BptNode>)
      requires Valid()
      modifies this`st, ctx`maxId, root`children, root.children
      ensures Valid() && st == Located(old(st), key)
      ensures OnlyAt(Touched(old(st), key)) && path == [root, root.children[Touched(old(st), key)]]
      ensures path[1].isLeaf && !root.isLeaf
      ensures if old(st).leaves == [] then |root.children| == 1 && fresh(root.children[0])
              else root.children == old(root.children)
    {
      hide WellFormed, LeavesLinked, CtxLinked, StoreLinked, Located, Touched;
      var cursor := root;
      path := [root];
      while !cursor.isLeaf
        invariant cursor == root || cursor.isLeaf
        invariant cursor == root ==> path == [root] && Valid() && st == old(st) && root.children == old(root.children)
        invariant cursor.isLeaf ==>
          && Valid() && st == Located(old(st), key)
          && OnlyAt(Touched(old(st), key)) && cursor == root.children[Touched(old(st), key)]
          && path == [root, cursor]
          && if old(st).leaves == [] then |root.children| == 1 && fresh(root.children[0])
             else root.children == old(root.children)
        decreases if cursor.isLeaf then 0 else 1
      {
        var child, s := ChildForInsert(key);
        cursor := child;
        path := path + [cursor];
      }
    }

    // ---- lookup and deletion -----------------------------------------------

    /** One round of the descent: the re-read child whose range holds the key, if any. */
    method ChildForKey(key: Bytes) returns (child: BptNode?, s: Status)
      requires Valid()
      modifies this`st, root.children
      ensures Valid() && st == AfterGet(old(st), key) && root.children == old(root.children)
      ensures s == DeleteStatus(old(st), key)
      ensures var i := Find(old(st).leaves, key);
              if i == |old(st).leaves| then child == null
              else OnlyAt(i) && child == root.children[i] && child.isLeaf && i < |st.leaves|
    {
      hide WellFormed, CtxLinked, StoreLinked, Find, LoadLeaf;
      var i := root.FindChild(key);
      FindAgrees(key);
      if i == |root.children| { return null, Ok; }
      child := root.children[i];
      ChildrenDiffer(i);
      s := LoadChild(child, i);
      SameIdLoaded(old(st), i);
    }

    /** The descent of a lookup: the root and, if a range holds the key, its leaf, re-read.
        A leaf that was never saved cannot be re-read. */
    method DescendForKey(key: Bytes) returns (path: seq<BptNode>, s: Status)
      requires Valid()
      modifies this`st, root.children
      ensures Valid() && st == AfterGet(old(st), key) && root.children == old(root.children) && !root.isLeaf
      ensures s == DeleteStatus(old(st), key)
      ensures var i := Find(old(st).leaves, key);
              if i == |old(st).leaves| then path == [root]
              else OnlyAt(i) && path == [root, root.children[i]] && path[1].isLeaf && i < |st.leaves|
    {
      hide WellFormed, LeavesLinked, CtxLinked, StoreLinked, Find, AfterGet, LookupSaved;
      ghost var i := Find(st.leaves, key);
      var cursor: BptNode := root;
      path, s := [root], Ok;
      while !cursor.isLeaf
        invariant root.children == old(root.children)
        invariant cursor == root || cursor.isLeaf
        invariant cursor == root ==> path == [root] && Valid() && st == old(st) && s == Ok
        invariant cursor.isLeaf ==>
          && i < |st.leaves| == |old(st).leaves| && OnlyAt(i) && cursor == root.children[i] && path == [root, cursor]
          && Valid() && st == AfterGet(old(st), key) && s == DeleteStatus(old(st), key)
        decreases if cursor.isLeaf then 0 else 1
      {
        var child;
        child, s := ChildForKey(key);
        if child == null { return; }
        cursor := child;
        path := path + [cursor];
      }
    }

    lemma FindAgrees(key: Bytes)
      requires LeavesLinked(st.leaves)
      ensures root.FindChild(key) == Find(st.leaves, key) && |root.children| == |st.leaves|
    {
    }

    /** Looks the key up in the re-read leaf. When re-reading is possible and changes
        nothing, that succeeds exactly when the key is in the tree. */
    method GetItem(key: Bytes) returns (s: Status, value: Bytes)
      requires Valid()
      modifies this`st, root.children
      ensures Valid() && st == AfterGet(old(st), key) && root.children == old(root.children)
      ensures s == GetStatus(old(st), key)
      ensures s == Ok ==>
                var i := Find(old(st).leaves, key);
                i < |st.leaves| && Has(st.leaves[i].kvs, key)
                && value == st.leaves[i].kvs[LowerBound(st.leaves[i].kvs, key)].value
      ensures old(Intact(st) && LookupReady(st, key) && LookupSaved(st, key)) ==>
                && Intact(st) && (s == Ok <==> key in old(Model(st))) && (s == Ok ==> value == old(Model(st))[key])
                && (s == StorageKvNotFound <==> forall i :: 0 <= i < |old(st).leaves| ==> !Spans(old(st).leaves[i], key))
    {
      hide Intact, WellFormed, LookupReady, LookupSaved, RootLinked, LeavesLinked, CtxLinked, StoreLinked, Contents, Find;
      ghost var i := Find(st.leaves, key);
      if Intact(st) && LookupReady(st, key) && LookupSaved(st, key) {
        GetMeaning(st, key);
        GetStatusIs(st, key);
        if key in Model(st) { RangeFinds(st, key); }
      }
      var path;
      path, s := DescendForKey(key);
      if s != Ok { return s, []; }
      if |path| == 1 { return StorageKvNotFound, []; }
      LeafHolds(path[1], i);
      s, value := path[1].GetItem(key);
    }

    /** Removes the key from the re-read leaf, if it is there; both outcomes are reported as
        success. When re-reading is possible and changes nothing, the tree loses the key. */
    method Delete(key: Bytes) returns (s: Status)
      requires Valid()
      modifies this`st, ctx`unsaved, root, root.children
      ensures Valid() && st == AfterDelete(old(st), key) && s == DeleteStatus(old(st), key)
      ensures old(Intact(st) && LookupReady(st, key) && LookupSaved(st, key)) ==>
                Intact(st) && (old(Fresh(st)) ==> Fresh(st)) && s == Ok && Model(st) == old(Model(st)) - {key}
      ensures forall c :: c in root.children ==> c in old(root.children)
    {
      hide Intact, Fresh, WellFormed, LookupReady, LookupSaved, RootLinked, LeavesLinked, CtxLinked, StoreLinked, Contents,
           Has, KeyErased, LeafShrunk, RootShrunk, Find;
      ghost var i, st0 := Find(st.leaves, key), st;
      if Intact(st) && LookupReady(st, key) && LookupSaved(st, key) { DeleteMeaning(st, key); }
      DeletedWf(st, key);
      var path;
      path, s := DescendForKey(key);
      if s != Ok { return; }
      if |path| == 1 { return Ok; }
      ghost var leaf, st1 := path[1], st;
      ShrunkWf(st1, i, key);
      s := EraseFromLeaf(path[1], i, key);
      if s != Ok { return Ok; }
      while path != []
        invariant path == [root, leaf] || path == [root] || path == []
        invariant Linked() && forall c :: c in root.children ==> c in old(root.children)
        invariant |path| == 2 ==> OnlyAt(i) && leaf == root.children[i] && st == KeyErased(st1, i, key)
        invariant |path| == 1 ==> st == LeafShrunk(st1, i, key)
        invariant |path| == 0 ==> st == RootShrunk(LeafShrunk(st1, i, key))
        decreases |path|
      {
        var cursor := path[|path| - 1];
        path := path[..|path| - 1];
        if cursor.isLeaf {
          FixLeafAfterDelete(cursor, i, key, st1);
        } else {
          FixRootAfterDelete();
        }
      }
    }

    method EraseFromLeaf(leaf: BptNode, ghost i: nat, key: Bytes) returns (s: Status)
      requires Linked() && OnlyAt(i) && leaf == root.children[i]
      modifies this`st, leaf`kvs, leaf`writeKvs
      ensures s == if Has(old(st).leaves[i].kvs, key) then Ok else BptreeError
      ensures Linked() && st == if s == Ok then KeyErased(old(st), i, key) else old(st)
    {
      hide RootLinked, StoreLinked, Has, Erase, Collected, ListedAre;
      SameListed(ctx.unsaved, root.children, st.leaves, KeyErased(st, i, key).leaves);
      s := leaf.Delete(key);
      if s == Ok { st := KeyErased(st, i, key); }
    }

    /** The bottom-up round of a deletion at the leaf: an empty leaf is unlinked. */
    method FixLeafAfterDelete(leaf: BptNode, ghost i: nat, key: Bytes, ghost st1: TreeState)
      requires Linked() && OnlyAt(i) && leaf == root.children[i]
      requires i < |st1.leaves| && st == KeyErased(st1, i, key)
      modifies this`st, ctx`unsaved, root`children, leaf`stat
      ensures Linked() && st == LeafShrunk(st1, i, key)
      ensures forall c :: c in root.children ==> c in old(root.children)
    {
      hide CtxLinked, LeavesLinked, RootLinked, StoreLinked, KeyErased, UnlinkStep, StatShrunk;
      LeafHolds(leaf, i);
      if !leaf.isRoot && leaf.IsEmpty() {
        UnlinkLeaf(leaf, i);
      } else {
        ShrinkStat(leaf, i, key);
      }
    }

    method ShrinkStat(leaf: BptNode, ghost i: nat, key: Bytes)
      requires Linked() && OnlyAt(i) && leaf == root.children[i] && i < |st.leaves| && leaf.kvs != []
      requires st.leaves[i].kvs == leaf.kvs
      modifies this`st, ctx`unsaved, leaf`stat
      ensures Linked() && st == StatShrunk(old(st), i, key)
    {
      hide RootLinked, StoreLinked, DelStat, Collected, ListedAre;
      ghost var l := st.leaves[i];
      ghost var l' := l.(stat := DelStat(l.stat, l.kvs, key));
      SameListed(ctx.unsaved, root.children, st.leaves, PutLeaf(st, i, l').leaves);
      leaf.UpdateStatByDelKv(key);
      st := PutLeaf(st, i, l');
      CollectLeafNode(leaf, i);
    }

    method UnlinkLeaf(leaf: BptNode, ghost i: nat)
      requires Linked() && OnlyAt(i) && leaf == root.children[i] && i < |st.leaves|
      modifies this`st, ctx`unsaved, root`children
      ensures Linked() && st == UnlinkStep(old(st), i)
      ensures forall c :: c in root.children ==> c in old(root.children)
    {
      hide StoreLinked, LeavesLinked, RootLinked, FirstMax, Unlisted, Collected, ListedAre;
      LeafHolds(leaf, i);
      UncollectListed(ctx.unsaved, root, root.children, st.leaves, i);
      ctx.RemoveUnsavedTreeNode(leaf);
      DropChild(leaf, i);
      st := UnlinkStep(st, i);
    }

    /** The child is taken out when the search by its maximal key finds it. */
    method DropChild(leaf: BptNode, ghost i: nat)
      requires RootLinked(st.rootId, st.rootStat) && LeavesLinked(st.leaves)
      requires OnlyAt(i) && leaf == root.children[i]
      modifies root`children
      ensures RootLinked(st.rootId, st.rootStat) && LeavesLinked(UnlinkStep(st, i).leaves) && i < |st.leaves|
      ensures root.children == if FirstMax(st.leaves, st.leaves[i].stat.maxKey) == i
                               then old(root.children[..i] + root.children[i + 1..]) else old(root.children)
    {
      hide LeafLinked, FirstMax, UnlinkStep;
      ghost var before := root.children;
      LeafHolds(leaf, i);
      ChildrenAreNotRoot(st.leaves);
      FoundAt(leaf, i);
      leaf.parent.DelChild(leaf);
      StillLinked(before, i);
    }

    lemma StillLinked(before: seq<BptNode>, i: nat)
      requires i < |before| == |st.leaves| && Apart(before) && forall j :: 0 <= j < |before| ==> LeafLinked(before[j], st.leaves[j])
      requires root.children == if FirstMax(st.leaves, st.leaves[i].stat.maxKey) == i then before[..i] + before[i + 1..]
                                else before
      ensures LeavesLinked(UnlinkStep(st, i).leaves)
    {
      hide LeafLinked, FirstMax, UnlinkStep, Apart;
      var ms, gone := UnlinkStep(st, i).leaves, FirstMax(st.leaves, st.leaves[i].stat.maxKey) == i;
      UnlinkedLeaves(st, i);
      if gone { ApartDrop(before, i); }
      forall j | 0 <= j < |root.children| ensures LeafLinked(root.children[j], ms[j]) {
        var k := if gone && j >= i then j + 1 else j;
        SameLink(before[k], st.leaves[k], ms[j]);
      }
    }

    lemma SameLink(c: BptNode, l: LeafState, l': LeafState)
      requires LeafLinked(c, l) && l' == l.(listed := l'.listed)
      ensures LeafLinked(c, l')
    {
    }

    lemma OwnIdOf(i: nat)
      requires LeavesLinked(st.leaves) && WellFormed(st) && i < |root.children|
      ensures i < |st.leaves| && root.children[i].id == st.leaves[i].id != st.rootId
    {
      assert LeafWf(st, st.leaves[i]);
    }

    lemma FoundAt(leaf: BptNode, i: nat)
      requires LeavesLinked(st.leaves) && OnlyAt(i) && leaf == root.children[i]
      ensures |root.children| == |st.leaves|
      ensures root.FindChildNode(leaf) == if FirstMax(st.leaves, st.leaves[i].stat.maxKey) == i then i else |root.children|
    {
      FirstMaxAgrees(leaf.stat.maxKey);
    }

    method FixRootAfterDelete()
      requires Linked() && WellFormed(st)
      modifies this`st, ctx`unsaved, root`stat
      ensures Linked() && st == RootShrunk(old(st))
    {
      hide WellFormed, StoreLinked, TouchRoot;
      ChildrenHaveOtherIds();
      if root.isRoot && root.IsEmpty() {
        root.ResetStat();
        ctx.CollectUnsavedTreeNode(root);
        st := ResetRoot(st);
      } else {
        var due := FixRoot(false);
      }
    }

    lemma LeafHolds(leaf: BptNode, i: nat)
      requires LeavesLinked(st.leaves) && i < |root.children| && leaf == root.children[i]
      ensures leaf.kvs == st.leaves[i].kvs && leaf.id == st.leaves[i].id && leaf.parent == root
      ensures leaf.children == [] && !leaf.isRoot
    {
    }

    ghost predicate OnlyAt(i: nat)
      reads root
    {
      i < |root.children| && forall j :: 0 <= j < |root.children| && j != i ==> root.children[j] != root.children[i]
    }

    method InsertIntoLeaf(leaf: BptNode, ghost i: nat, key: Bytes, value: Bytes) returns (s: Status)
      requires Linked() && OnlyAt(i) && leaf == root.children[i]
      modifies this`st, leaf`kvs, leaf`writeKvs
      ensures s == if Has(old(st).leaves[i].kvs, key) then DuplicateKey
                   else if key in old(st).leaves[i].written then BptreeError else Ok
      ensures Linked() && st == if s == Ok then EntryPut(old(st), i, Entry(key, value)) else old(st)
    {
      hide RootLinked, StoreLinked, Has, Emplace, Collected, ListedAre;
      SameListed(ctx.unsaved, root.children, st.leaves, EntryPut(st, i, Entry(key, value)).leaves);
      s := leaf.Insert(key, value);
      if s == Ok { st := EntryPut(st, i, Entry(key, value)); }
    }

    /** The bottom-up round of an insertion at the leaf. */
    method FixLeafAfterInsert(leaf: BptNode, ghost i: nat, key: Bytes, value: Bytes)
      requires Linked() && OnlyAt(i) && leaf == root.children[i] && i < |st.leaves|
      requires WellFormed(StatPut(st, i, Entry(key, value)))
      modifies this`st, ctx, root`children, leaf
      ensures Linked() && st == LeafFixed(StatPut(old(st), i, Entry(key, value)), i)
      ensures forall c :: c in root.children ==> c in old(root.children) || fresh(c)
    {
      hide WellFormed, RootLinked, StoreLinked, AddStat, SplitStep;
      ghost var e := Entry(key, value);
      leaf.UpdateStatByAddKv(key, value);
      st := StatPut(st, i, e);
      if !leaf.NeedSplit() {
        CollectLeafNode(leaf, i);
      } else {
        SplitAfterInsert(leaf, i);
      }
    }

    method CollectLeafNode(leaf: BptNode, ghost i: nat)
      requires Linked() && OnlyAt(i) && leaf == root.children[i] && i < |st.leaves|
      modifies this`st, ctx`unsaved
      ensures Linked() && st == CollectLeaf(old(st), i)
    {
      hide RootLinked, StoreLinked, LeafLinked;
      CollectListed(ctx.unsaved, root.children, st.leaves, i);
      ctx.CollectUnsavedTreeNode(leaf);
      SameLinks(st.leaves, Listed(st.leaves, i));
      st := CollectLeaf(st, i);
    }

    /** Whether a leaf is to be saved is a matter of the context. */
    lemma SameLinks(ls: seq<LeafState>, ms: seq<LeafState>)
      requires LeavesLinked(ls) && |ms| == |ls| && forall j :: 0 <= j < |ls| ==> ms[j] == ls[j].(listed := ms[j].listed)
      ensures LeavesLinked(ms)
    {
    }

    /** The split of that round: the new right half is linked in by its maximal key. */
    method SplitAfterInsert(leaf: BptNode, ghost i: nat)
      requires Linked() && OnlyAt(i) && leaf == root.children[i] && i < |st.leaves|
      requires WellFormed(st) && |st.leaves[i].kvs| >= 2
      modifies this`st, ctx, root`children, leaf
      ensures Linked() && st == SplitStep(old(st), i)
      ensures forall c :: c in root.children ==> c in old(root.children) || fresh(c)
    {
      hide WellFormed, StoreLinked, LeavesLinked, LeafLinked, RootLinked, Collected, ListedAre, SplitStep, SplitLeaves, Apart;
      ChildrenAreApart(st.leaves);
      ghost var st0, before, children := st, ctx.unsaved, root.children;
      var right := CutAndLink(leaf, i);
      SplitLinks(before, children, i, right);
      st := SplitStep(st, i);
      SplitStepIs(st0, i);
    }

    method CutAndLink(leaf: BptNode, ghost i: nat) returns (right: BptNode)
      requires RootLinked(st.rootId, st.rootStat) && LeavesLinked(st.leaves) && ctx.maxId == st.maxId
      requires OnlyAt(i) && leaf == root.children[i] && i < |st.leaves|
      requires WellFormed(st) && |st.leaves[i].kvs| >= 2
      modifies ctx, root`children, leaf
      ensures RootLinked(st.rootId, st.rootStat) && LeavesLinked(SplitLeaves(st.leaves, i, st.maxId + 1))
      ensures fresh(right) && right.id == ctx.maxId == st.maxId + 1
      ensures ctx.unsaved == old(ctx.unsaved)[right.id := right][leaf.id := leaf]
      ensures root.children == var at := RightAt(st.leaves, i); old(root.children[..at] + [right] + root.children[at..])
    {
      hide WellFormed, LeafLinked, LeavesLinked, LeftHalf, RightHalf, FirstAbove, RootLinked;
      HalfIds(st.leaves[i], st.maxId + 1);
      ChildrenAreNotRoot(st.leaves);
      right := CutLeaf(leaf, i);
      ctx.CollectUnsavedTreeNode(right);
      ctx.CollectUnsavedTreeNode(leaf);
      LinkRightHalf(leaf, right, st.leaves[i := LeftHalf(st.leaves[i])], i, RightHalf(st.leaves[i], st.maxId + 1));
    }

    /** The right half is in its place, and both halves are collected. */
    lemma SplitLinks(before: map<nat, BptNode>, children: seq<BptNode>, i: nat, right: BptNode)
      requires i < |children| == |st.leaves| && |st.leaves[i].kvs| >= 2
      requires Collected(before, root, children) && ListedAre(before, children, st.leaves) && Apart(children)
      requires before.Keys == st.unsaved
      requires right !in children && right != root && right.id == st.maxId + 1
      requires ctx.unsaved == before[right.id := right][children[i].id := children[i]] && ctx.maxId == st.maxId + 1
      requires var at := RightAt(st.leaves, i); root.children == children[..at] + [right] + children[at..]
      requires LeavesLinked(SplitLeaves(st.leaves, i, st.maxId + 1))
      ensures var st' := SplitStep(st, i); LeavesLinked(st'.leaves) && CtxLinked(st'.leaves, st'.unsaved, st'.maxId)
    {
      hide LeafLinked, LeavesLinked, RightAt, LeftAt, SplitLeaves, SplitStep, Collected, ListedAre, Apart;
      SplitListed(before, root, children, st.leaves, i, right, st.maxId + 1);
      SplitStepIs(st, i);
      SameLinks(SplitLeaves(st.leaves, i, st.maxId + 1), SplitStep(st, i).leaves);
    }

    lemma ChildrenAreApart(ls: seq<LeafState>)
      requires LeavesLinked(ls)
      ensures Apart(root.children) && |root.children| == |ls|
    {
    }

    lemma ChildrenAreNotRoot(ls: seq<LeafState>)
      requires RootLinked(st.rootId, st.rootStat) && LeavesLinked(ls)
      ensures forall j :: 0 <= j < |root.children| ==> root.children[j] != root
    {
    }

    method CutLeaf(leaf: BptNode, ghost i: nat) returns (right: BptNode)
      requires LeavesLinked(st.leaves) && OnlyAt(i) && leaf == root.children[i] && ctx.maxId == st.maxId
      requires WellFormed(st) && i < |st.leaves| && |st.leaves[i].kvs| >= 2
      modifies leaf`kvs, leaf`writeKvs, leaf`stat, ctx`maxId
      ensures fresh(right) && right.id == ctx.maxId == st.maxId + 1 && leaf.id == st.leaves[i].id
      ensures LeavesLinked(st.leaves[i := LeftHalf(st.leaves[i])]) && root.children[i] == leaf
      ensures LeafLinked(right, RightHalf(st.leaves[i], st.maxId + 1))
    {
      hide WellFormed, PayloadSize, Keys;
      LeafIsSorted(st, i);
      right := leaf.Split();
    }

    method LinkRightHalf(leaf: BptNode, right: BptNode, ghost ls: seq<LeafState>, ghost i: nat, ghost r: LeafState)
      requires i < |ls| && LeavesLinked(ls) && LeafLinked(right, r) && leaf == root.children[i]
      requires right != root && right !in root.children && RootLinked(st.rootId, st.rootStat)
      modifies root`children
      ensures RootLinked(st.rootId, st.rootStat)
      ensures var at := FirstAbove(ls, r.stat.maxKey);
              && LeavesLinked(ls[..at] + [r] + ls[at..])
              && root.children == old(root.children[..at] + [right] + root.children[at..])
    {
      hide LeafLinked, FirstAbove, FirstMaxAbove;
      ghost var at, before := FirstAbove(ls, r.stat.maxKey), root.children;
      ChildrenAreNotRoot(ls);
      FirstAboveAgrees(ls, right, r, i);
      PutIn(before, at, right);
      PutIn(ls, at, r);
      leaf.parent.AddChild(right);
      forall j | 0 <= j < |root.children| ensures LeafLinked(root.children[j], (ls[..at] + [r] + ls[at..])[j]) {
        assert j < at ==> root.children[j] == before[j];
        assert j > at ==> root.children[j] == before[j - 1];
      }
    }

    lemma FirstAboveAgrees(ls: seq<LeafState>, right: BptNode, r: LeafState, i: nat)
      requires LeavesLinked(ls) && LeafLinked(right, r) && i < |ls|
      ensures FirstMaxAbove(root.children, right.stat.maxKey) == FirstAbove(ls, r.stat.maxKey)
      ensures i < |root.children| && root.children[i].parent == root
    {
    }

    lemma FirstMaxAgrees(key: Bytes)
      requires LeavesLinked(st.leaves)
      ensures FirstMaxNotBelow(root.children, key) == FirstMax(st.leaves, key)
    {
    }

    lemma ReadLeaf(i: nat)
      requires Valid() && i < |root.children|
      ensures var l, nodes := st.leaves[i], ctx.kv.nodes;
              && (l.id in nodes <==> l.id in st.nodes)
              && Loadable(nodes, l.id)
              && Reread(st, l) == if l.id in nodes
                                  then EmplaceAll(l.kvs, DecodeEntries(nodes[l.id].keys, nodes[l.id].values))
                                  else l.kvs
    {
      hide ToMap, Sorted, Sized, EmplaceAll, DecodeEntries, Decodable, RootLinked, CtxLinked, LeafLinked;
      var l := st.leaves[i];
      assert LeafWf(st, l);
      if l.id in st.nodes { assert Decodes(ctx.kv.nodes[l.id], st.nodes[l.id]); }
    }

    lemma ChildrenDiffer(i: nat)
      requires Valid() && i < |root.children|
      ensures root.children[i] != root
      ensures forall j :: 0 <= j < |root.children| && j != i ==> root.children[j] != root.children[i]
    {
    }
  }

  lemma SameIdLoaded(st: TreeState, i: nat)
    requires i < |st.leaves|
    ensures LoadLeaf(st, i).leaves[i].id == st.leaves[i].id && LoadLeaf(st, i).nodes == st.nodes
  {
  }

  lemma LeafIsSorted(st: TreeState, i: nat)
    requires WellFormed(st) && i < |st.leaves|
    ensures Sorted(st.leaves[i].kvs)
  {
    assert LeafWf(st, st.leaves[i]);
  }

  /** The states the rounds of an insertion go through. */
  lemma InsertRounds(st: TreeState, e: Entry)
    requires WellFormed(st) && |e.key| <= st.keyLimit && |e.value| < UINT32_RANGE
    ensures var i := Touched(st, e.key); var st1 := StatPut(EntryPut(Located(st, e.key), i, e), i, e);
            && WellFormed(st1) && WellFormed(LeafFixed(st1, i)) && LeafFixed(st1, i).leaves != []
            && TouchRoot(LeafFixed(st1, i), true) == AfterInsert(st, e)
            && WellFormed(AfterInsert(st, e))
  {
    hide WellFormed, Touched, StatPut, EntryPut, Located, Placed, LeafFixed, MaybeSplit, TouchRoot, RootDue;
    PlacedInSteps(st, e);
    PlacedWf(st, e);
    LocatedWf(st, e.key);
    SameLimitLocated(st, e.key);
    EntryPutWf(Located(st, e.key), Touched(st, e.key), e);
    InsertedWf(st, e);
  }

  lemma InsertOutcome(st: TreeState, e: Entry)
    requires WellFormed(st) && |e.key| <= st.keyLimit && |e.value| < UINT32_RANGE
    ensures WellFormed(Inserted(st, e))
    ensures Intact(st) && InsertReady(st, e.key) && TakesFreeId(st, e) ==>
              var st', s := Inserted(st, e), InsertStatus(st, e);
              && Intact(st') && (Fresh(st) ==> Fresh(st')) && (s == DuplicateKey <==> e.key in Model(st))
              && Model(st') == if s == DuplicateKey then Model(st) else Model(st)[e.key := e.value]
  {
    hide WellFormed, Intact, Fresh, InsertReady, TakesFreeId, InsertStatus, Located, AfterInsert, Model;
    LocatedWf(st, e.key);
    InsertedWf(st, e);
    if Intact(st) && InsertReady(st, e.key) && TakesFreeId(st, e) {
      InsertStatusIs(st, e);
      if e.key !in Model(st) { InsertMeaning(st, e); }
    }
  }

  lemma AfterSaveFields(st: TreeState)
    ensures var st' := AfterSave(st);
            && st'.rootId == st.rootId && st'.rootStat == st.rootStat
            && (forall i :: 0 <= i < |st.leaves| ==> st'.leaves[i] == st.leaves[i].(listed := false))
            && st'.unsaved == {} && st'.maxId == st.maxId
  {
  }

  lemma SaveLinks(nodes: map<nat, NodeRecord>, nodes': map<nat, NodeRecord>, records: map<nat, NodeRecord>, st: TreeState)
    requires nodes.Keys == st.nodes.Keys && forall k :: k in nodes ==> Decodes(nodes[k], st.nodes[k])
    requires records.Keys == st.unsaved && forall k :: k in records ==> Decodes(records[k], SavedOf(st, k))
    requires nodes'.Keys == nodes.Keys + records.Keys
    requires forall k :: k in nodes' ==> nodes'[k] == if k in records then records[k] else nodes[k]
    ensures nodes'.Keys == AfterSave(st).nodes.Keys
    ensures forall k :: k in nodes' ==> Decodes(nodes'[k], AfterSave(st).nodes[k])
  {
  }

  lemma HeldIsEncodable(st: TreeState, i: nat)
    requires WellFormed(st) && i < |st.leaves|
    ensures Sorted(st.leaves[i].kvs) && Encodable(st.leaves[i].kvs)
  {
    hide ToMap, DataCmp;
    assert LeafWf(st, st.leaves[i]);
  }

  /** Opens the index whose root has id `rootId`: nothing is in memory but the root and
      what its record tells about the leaves. */
  method OpenIndex(kv: KvStorage, rootId: nat, maxId: nat, ghost st0: TreeState) returns (tree: Bptree)
    requires WellFormed(st0) && RootSynced(st0) && st0.unsaved == {} && st0.rootId == rootId <= maxId
    requires kv.nodes.Keys == st0.nodes.Keys && forall k :: k in kv.nodes ==> Decodes(kv.nodes[k], st0.nodes[k])
    ensures fresh(tree) && fresh(tree.ctx) && fresh(tree.root) && forall c :: c in tree.root.children ==> fresh(c)
    ensures tree.ctx.kv == kv
    ensures tree.Valid() && tree.st == ReopenStep(st0, maxId)
  {
    hide WellFormed;
    ReopenWf(st0, maxId);
    var ctx := new TreeCtx(kv, maxId);
    var root := new BptNode.Root(ctx, rootId);
    if rootId in kv.nodes {
      assert Decodes(kv.nodes[rootId], st0.nodes[rootId]);
      root.LoadChildren(kv.nodes[rootId].children);
    }
    tree := new Bptree(ctx, root, ReopenStep(st0, maxId));
  }
}
