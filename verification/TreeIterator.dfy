/** The range iterator over one tree and the paging iterator over a list of ranges. */
module TreeIterators {
  import opened DataOrder
  import opened OrderedMap
  import opened Forest
  import opened TreeStates
  import opened BptNodes
  import opened Bptrees
  import opened ScanSpec
  import RowCodec

  /** A tree with nothing awaiting a save, so that all its leaves can be re-read. */
  ghost predicate Clean(t: Bptree)
    reads t, t.ctx, t.ctx.kv, t.root, t.root.children
  {
    && t.Valid() && Intact(t.st) && Settled(t.st) && t.st.unsaved == {}
    && forall i :: 0 <= i < |t.st.leaves| ==> t.st.leaves[i].id in t.st.nodes
  }

  ghost function LeavesOf(t: Bptree): seq<LeafView>
    reads t
  {
    Views(t.st.leaves)
  }

  /** The leaves hold what they held, whether in memory or in storage. */
  twostate predicate SameLeaves(t: Bptree)
    reads t
  {
    && LeavesOf(t) == old(LeavesOf(t)) && t.st.keyLimit == old(t.st.keyLimit)
    && (old(Fresh(t.st)) ==> Fresh(t.st))
  }

  /** Loads leaf `i`; no other leaf changes. */
  method LoadLeafOf(t: Bptree, c: BptNode, ghost i: nat) returns (s: Status)
    requires Clean(t) && i < |t.root.children| && c == t.root.children[i]
    modifies t, c`kvs
    ensures Clean(t) && t.st == LoadLeaf(old(t.st), i) && t.root.children == old(t.root.children)
    ensures SameLeaves(t) && s == Ok
    ensures c.kvs == t.st.leaves[i].entries
  {
    hide LeavesInv, WellFormed, RootSynced, Settled, LeafSettled, Fresh;
    LeafIsSettled(t.st, i);
    LoadKeeps(t.st, i);
    t.LeafHolds(c, i);
    s := t.LoadChild(c, i);
    t.LeafHolds(c, i);
  }

  lemma LeafIsSettled(st: TreeState, i: nat)
    requires Settled(st) && i < |st.leaves|
    ensures LeafSettled(st, st.leaves[i])
  {
  }

  class BptIterator {
    const tree: Bptree
    const opts: IteratorOptions
    var curNode: BptNode?
    var curKv: nat
    var nodeItReachEnd: bool
    var kvItReachEnd: bool
    /** Position of `curNode` among the leaves. */
    ghost var at: nat

    constructor (tree: Bptree, opts: IteratorOptions)
      ensures this.tree == tree && this.opts == opts && curNode == tree.root
      ensures !nodeItReachEnd && !kvItReachEnd
    {
      this.tree, this.opts, curNode := tree, opts, tree.root;
      curKv, nodeItReachEnd, kvItReachEnd, at := 0, false, false, 0;
    }

    /** The cursor stands at an entry, or at the end of a leaf, or behind the last leaf. */
    ghost predicate Opened()
      reads this, tree, tree.ctx, tree.ctx.kv, tree.root, tree.root.children
    {
      && Clean(tree)
      && (nodeItReachEnd ==> kvItReachEnd)
      && (!nodeItReachEnd ==>
            && at < |tree.root.children| == |tree.st.leaves|
            && curNode == tree.root.children[at] && curNode.kvs == tree.st.leaves[at].entries
            && curKv <= |curNode.kvs| && (kvItReachEnd <==> curKv == |curNode.kvs|))
    }

    /** The entries still to be returned. */
    ghost function Left(): seq<Entry>
      requires Opened()
      reads this, tree, tree.ctx, tree.ctx.kv, tree.root, tree.root.children
    {
      if nodeItReachEnd then [] else FromLeaf(LeavesOf(tree), at, curKv, opts)
    }

    /** Moves to the first entry not below the lower bound; the end status means that no
        leaf holds such an entry. */
    method Open() returns (s: Status)
      requires Clean(tree) && curNode == tree.root
      modifies this, tree, tree.root.children
      ensures Clean(tree) && SameLeaves(tree) && tree.root.children == old(tree.root.children)
      ensures s == Ok || s == IteratorEnd
      ensures s == Ok ==> Opened() && Left() == Scan(LeavesOf(tree), opts)
      ensures s == IteratorEnd ==> Scan(LeavesOf(tree), opts) == []
    {
      hide Clean, FromLeaf, StartLeaf, StartEntry, LoadLeaf, BptIterator.Opened;
      RootIsInner(tree);
      s := Ok;
      while !curNode.isLeaf
        invariant curNode != null && s == Ok
        invariant Clean(tree) && SameLeaves(tree) && tree.root.children == old(tree.root.children)
        invariant curNode == tree.root || curNode.isLeaf
        invariant curNode != tree.root ==>
          && at == StartLeaf(LeavesOf(tree), opts) < |tree.root.children| == |tree.st.leaves|
          && curNode == tree.root.children[at] && curNode.kvs == tree.st.leaves[at].entries
        decreases if curNode == tree.root then 1 else 0
      {
        s := Descend();
        if s != Ok { return; }
      }
      PlaceCursor();
    }

    /** One round of the opening descent. */
    method Descend() returns (s: Status)
      requires Clean(tree) && curNode == tree.root
      modifies this`curNode, this`at, tree, tree.root.children
      ensures Clean(tree) && SameLeaves(tree) && tree.root.children == old(tree.root.children)
      ensures s == Ok || s == IteratorEnd
      ensures s == Ok ==>
        && at == StartLeaf(LeavesOf(tree), opts) < |tree.root.children| == |tree.st.leaves|
        && curNode == tree.root.children[at] && curNode.kvs == tree.st.leaves[at].entries && curNode.isLeaf
      ensures s == IteratorEnd ==> Scan(LeavesOf(tree), opts) == []
    {
      hide Clean, FromLeaf, StartLeaf, StartEntry, LoadLeaf;
      RootIsInner(tree);
      StartAgrees(tree, opts);
      if curNode.children == [] { return IteratorEnd; }
      var it := if opts.lowerOpen then FirstMaxAbove(curNode.children, opts.lower)
                else FirstMaxNotBelow(curNode.children, opts.lower);
      if it == |curNode.children| { return IteratorEnd; }
      LeafFacts(tree, it);
      curNode, at := curNode.children[it], it;
      s := LoadLeafOf(tree, curNode, it);
    }

    method PlaceCursor()
      requires Clean(tree) && at == StartLeaf(LeavesOf(tree), opts) < |tree.root.children| == |tree.st.leaves|
      requires curNode == tree.root.children[at] && curNode.kvs == tree.st.leaves[at].entries
      modifies this`curKv, this`kvItReachEnd, this`nodeItReachEnd
      ensures Opened() && Left() == Scan(LeavesOf(tree), opts)
    {
      hide Clean, FromLeaf, StartLeaf, StartEntry;
      OpensInside(tree, opts);
      curKv, kvItReachEnd, nodeItReachEnd := StartEntry(curNode.kvs, opts), false, false;
    }

    /** Whether the scan may go on. When it may not, nothing is left; when the bound was
        compared with an entry, that entry is the next one. */
    predicate HashNext(): (more: bool)
      requires Opened()
      reads this, tree, tree.ctx, tree.ctx.kv, tree.root, tree.root.children
      ensures !more ==> Left() == []
      ensures more ==> !nodeItReachEnd
      ensures more && !kvItReachEnd ==> curKv < |curNode.kvs| && Left() != [] && Left()[0] == curNode.kvs[curKv]
    {
      if kvItReachEnd then !nodeItReachEnd else !PastKey(opts, curNode.kvs[curKv].key)
    }

    /** How much is to be done: entries to hand out, and the end to be found. */
    ghost function Work(): nat
      requires Opened()
      reads this, tree, tree.ctx, tree.ctx.kv, tree.root, tree.root.children
    {
      2 * |Left()| + if HashNext() then 1 else 0
    }

    method NextKv()
      requires Opened() && !kvItReachEnd && !PastKey(opts, curNode.kvs[curKv].key)
      modifies this`curKv, this`kvItReachEnd
      ensures Opened() && !nodeItReachEnd && at == old(at) && curNode == old(curNode) && curKv == old(curKv) + 1
      ensures old(Left()) == [curNode.kvs[old(curKv)]] + Left()
    {
      hide Clean;
      curKv := curKv + 1;
      if curKv == |curNode.kvs| { kvItReachEnd := true; }
    }

    /** From the end of a leaf to the next leaf, or behind the last one. */
    method NextLeafNode() returns (s: Status)
      requires Opened() && kvItReachEnd && !nodeItReachEnd
      modifies this`curNode, this`nodeItReachEnd, this`at, tree, tree.root.children
      ensures Clean(tree) && SameLeaves(tree) && tree.root.children == old(tree.root.children)
      ensures s == Ok && kvItReachEnd
      ensures nodeItReachEnd ==> old(Left()) == []
      ensures !nodeItReachEnd ==>
        && at == old(at) + 1 < |tree.root.children| == |tree.st.leaves| && curNode == tree.root.children[at]
        && curNode.kvs == tree.st.leaves[at].entries && curNode.kvs != []
        && old(Left()) == FromLeaf(LeavesOf(tree), at, 0, opts)
    {
      hide Clean, PastLeaf, LoadLeaf;
      LeafFacts(tree, at);
      var leafReached := false;
      s := Ok;
      while !leafReached
        invariant curNode != null && !nodeItReachEnd && kvItReachEnd && at == old(at) && s == Ok
        invariant Clean(tree) && tree.st == old(tree.st) && tree.root.children == old(tree.root.children)
        invariant !leafReached && at < |tree.root.children|
        invariant curNode == tree.root.children[at] || (curNode == tree.root && at + 1 == |tree.root.children|)
        decreases if curNode == tree.root then 0 else 1
      {
        LeafFacts(tree, at);
        if curNode.isRoot {
          nodeItReachEnd, curNode := true, null;
          return;
        }
        var parent := curNode.parent;
        var it := parent.FindChildNode(curNode);
        assert it != |parent.children|;
        it := it + 1;
        if it == |parent.children| {
          curNode := parent;
        } else {
          s := ToSibling(it);
          return;
        }
        leafReached := curNode.isLeaf;
      }
    }

    /** To the leaf at position `it`, unless its range is beyond the upper bound. */
    method ToSibling(it: nat) returns (s: Status)
      requires Clean(tree) && it < |tree.root.children| && !nodeItReachEnd
      modifies this`curNode, this`nodeItReachEnd, this`at, tree, tree.root.children
      ensures Clean(tree) && SameLeaves(tree) && tree.root.children == old(tree.root.children)
      ensures s == Ok && it < |LeavesOf(tree)|
      ensures nodeItReachEnd <==> PastLeaf(opts, LeavesOf(tree)[it].minKey)
      ensures !nodeItReachEnd ==>
        && at == it && |tree.root.children| == |tree.st.leaves| && curNode == tree.root.children[at]
        && curNode.kvs == tree.st.leaves[at].entries && curNode.kvs != []
    {
      hide Clean, PastLeaf, LoadLeaf;
      LeafFacts(tree, it);
      curNode, s := tree.root.children[it], Ok;
      if PastLeaf(opts, curNode.stat.minKey) {
        nodeItReachEnd, curNode := true, null;
        return;
      }
      at := it;
      s := LoadLeafOf(tree, curNode, it);
    }

    /** Appends up to `rowCount` of the remaining entries to the segment; fewer only when
        the range is exhausted, and then the iterator says so. */
    method Next(segment: seq<Entry>, rowCount: nat) returns (out: seq<Entry>, s: Status)
      requires Opened() && !nodeItReachEnd
      modifies this, tree, tree.root.children
      ensures Opened() && SameLeaves(tree) && tree.root.children == old(tree.root.children)
      ensures s == Ok
      ensures var n := if |old(Left())| < rowCount then |old(Left())| else rowCount;
              out == segment + old(Left())[..n] && Left() == old(Left())[n..]
      ensures |old(Left())| < rowCount ==> !HashNext()
    {
      hide Clean, PastKey, FromLeaf, BptIterator.Left;
      ghost var all, given := Left(), 0;
      var rowsRemain := rowCount;
      out, s := segment, Ok;
      assert all[0..] == all;
      while rowsRemain > 0
        invariant Opened() && !nodeItReachEnd && s == Ok
        invariant SameLeaves(tree) && tree.root.children == old(tree.root.children)
        invariant given <= |all| && given + rowsRemain == rowCount
        invariant out == segment + all[..given] && Left() == all[given..]
        decreases |tree.root.children| - at, |curNode.kvs| - curKv
      {
        if !kvItReachEnd && PastKey(opts, curNode.kvs[curKv].key) {
          assert !HashNext();
          return;
        }
        if !kvItReachEnd {
          Advance(all, given, curNode.kvs[curKv]);
          out := out + [curNode.kvs[curKv]];
          rowsRemain := rowsRemain - 1;
          NextKv();
          given := given + 1;
        } else {
          s := ToNextLeaf();
          if nodeItReachEnd { return; }
        }
      }
    }

    /** A part of the remaining entries, while the scan goes on. */
    method TakePart(segment: seq<Entry>, rowCount: nat) returns (out: seq<Entry>)
      requires Opened() && HashNext() && rowCount > 0
      modifies this, tree, tree.root.children
      ensures Opened() && SameLeaves(tree) && tree.root.children == old(tree.root.children)
      ensures out + Left() == segment + old(Left()) && |out| <= |segment| + rowCount
      ensures Work() < old(Work())
    {
      hide Clean, BptIterator.Left, BptIterator.HashNext;
      ghost var here := Left();
      var s;
      out, s := Next(segment, rowCount);
      ghost var n := |out| - |segment|;
      assert segment + here[..n] + here[n..] == segment + here;
    }

    /** The round of `Next` at the end of a leaf. */
    method ToNextLeaf() returns (s: Status)
      requires Opened() && kvItReachEnd && !nodeItReachEnd
      modifies this, tree, tree.root.children
      ensures Opened() && SameLeaves(tree) && tree.root.children == old(tree.root.children)
      ensures s == Ok && Left() == old(Left())
      ensures !nodeItReachEnd ==> at == old(at) + 1 <= |tree.root.children|
      ensures nodeItReachEnd ==> Left() == [] && !HashNext()
    {
      hide Clean, FromLeaf;
      s := NextLeafNode();
      if nodeItReachEnd { return; }
      curKv, kvItReachEnd := 0, false;
    }

    lemma Advance(all: seq<Entry>, given: nat, e: Entry)
      requires Opened() && !kvItReachEnd && !PastKey(opts, curNode.kvs[curKv].key) && e == curNode.kvs[curKv]
      requires given <= |all| && Left() == all[given..]
      ensures given < |all| && all[given] == e && all[..given + 1] == all[..given] + [e]
      ensures all[given..] == [e] + all[given + 1..]
    {
      hide Clean, PastKey;
    }
  }

  /** What the iterator meets at leaf `i`. */
  lemma LeafFacts(t: Bptree, i: nat)
    requires Clean(t) && i < |t.root.children|
    ensures !t.root.isLeaf && t.root.isRoot && |t.root.children| == |t.st.leaves|
    ensures var c := t.root.children[i];
            && c.isLeaf && !c.isRoot && c.parent == t.root && c != t.root
            && t.root.FindChildNode(c) == i
            && c.stat.minKey == LeavesOf(t)[i].minKey
            && t.st.leaves[i].entries != []
  {
    hide LeafWf, RootInv, Backed, Settled, FirstMax;
    t.ChildrenDiffer(i);
    t.FoundAt(t.root.children[i], i);
    FoundByMax(t.st.leaves, i);
    assert LeafOk(LeavesOf(t)[i]);
  }

  lemma RootIsInner(t: Bptree)
    requires Clean(t)
    ensures !t.root.isLeaf && t.root.isRoot && |t.root.children| == |t.st.leaves|
  {
  }

  /** Both library searches find the leaf a scan starts with. */
  lemma StartAgrees(t: Bptree, o: IteratorOptions)
    requires Clean(t)
    ensures StartLeaf(LeavesOf(t), o) == if o.lowerOpen then FirstMaxAbove(t.root.children, o.lower)
                                         else FirstMaxNotBelow(t.root.children, o.lower)
  {
    hide DataCmp, Intact, Settled;
    var vs := LeavesOf(t);
    forall i | 0 <= i < |vs| ensures vs[i].maxKey == t.root.children[i].stat.maxKey {
      assert t.LeafLinked(t.root.children[i], t.st.leaves[i]);
    }
  }

  lemma OpensInside(t: Bptree, o: IteratorOptions)
    requires Clean(t) && StartLeaf(LeavesOf(t), o) < |LeavesOf(t)|
    ensures var es := t.st.leaves[StartLeaf(LeavesOf(t), o)].entries; StartEntry(es, o) < |es|
  {
    hide WellFormed, Backed, Settled, StartEntry, StartLeaf;
    OpensAtLowerBound(LeavesOf(t), o);
  }

  /** What a list of ranges returns, range after range. */
  ghost function ScanAll(vs: seq<LeafView>, ops: seq<IteratorOptions>): seq<Entry> {
    if ops == [] then [] else Scan(vs, ops[0]) + ScanAll(vs, ops[1..])
  }

  class BaseIterator {
    const tree: Bptree
    const pageSize: nat
    var itOps: seq<IteratorOptions>
    var currentOpIdx: nat
    var treeIt: BptIterator?
    var code: Status
    var dataSegment: seq<Entry>

    constructor (tree: Bptree, pageSize: nat)
      ensures this.tree == tree && this.pageSize == pageSize
      ensures itOps == [] && currentOpIdx == 0 && treeIt == null && code == Ok && dataSegment == []
    {
      this.tree, this.pageSize := tree, pageSize;
      itOps, currentOpIdx, treeIt, code, dataSegment := [], 0, null, Ok, [];
    }

    /** Encodes the cells of both ends and appends the range. */
    method AddRange(range: RowCodec.IndexRange)
      requires RowCodec.RangeProper(range)
      modifies this`itOps
      ensures itOps == old(itOps) + [RowCodec.OptionsOf(range)]
    {
      var lower := RowCodec.EncodeRowValue(range.lower);
      var upper := RowCodec.EncodeRowValue(range.upper);
      itOps := itOps + [IteratorOptions(lower, upper, range.lowerOpen, range.upperOpen)];
    }

    /** Either some range is open, or all ranges are used up. */
    ghost predicate Running()
      reads this, treeIt, tree, tree.ctx, tree.ctx.kv, tree.root, tree.root.children
    {
      && Clean(tree) && currentOpIdx <= |itOps|
      && (code == Ok || code == IteratorEnd)
      && (code == Ok ==> treeIt != null && treeIt.tree == tree && treeIt.Opened())
    }

    ghost function Left(): seq<Entry>
      requires Running()
      reads this, treeIt, tree, tree.ctx, tree.ctx.kv, tree.root, tree.root.children
    {
      if code == Ok then treeIt.Left() + ScanAll(LeavesOf(tree), itOps[currentOpIdx..]) else []
    }

    lemma EndedLeft()
      requires Running() && code != Ok
      ensures Left() == []
    {
    }

    /** Opens the next range that holds an entry; ranges the tree ends before are skipped. */
    method Open() returns (s: Status)
      requires Clean(tree) && currentOpIdx <= |itOps| && (code == Ok || currentOpIdx == |itOps|)
      modifies this`currentOpIdx, this`treeIt, this`code, tree, tree.root.children
      ensures Running() && s == Ok
      ensures SameLeaves(tree) && tree.root.children == old(tree.root.children)
      ensures Left() == ScanAll(LeavesOf(tree), itOps[old(currentOpIdx)..])
      ensures old(currentOpIdx) <= currentOpIdx && if code == Ok then old(currentOpIdx) < currentOpIdx else currentOpIdx == |itOps|
      ensures treeIt == old(treeIt) || fresh(treeIt)
    {
      hide Clean, Scan, ScanAll, BptIterator.Opened, BptIterator.Left;
      NoRanges(LeavesOf(tree));
      while currentOpIdx < |itOps|
        invariant Clean(tree) && old(currentOpIdx) <= currentOpIdx <= |itOps| && (code == Ok || currentOpIdx == |itOps|)
        invariant SameLeaves(tree) && tree.root.children == old(tree.root.children)
        invariant ScanAll(LeavesOf(tree), itOps[currentOpIdx..]) == ScanAll(LeavesOf(tree), itOps[old(currentOpIdx)..])
        invariant treeIt == old(treeIt) || fresh(treeIt)
      {
        var op := itOps[currentOpIdx];
        ScanAllStep(LeavesOf(tree), itOps, currentOpIdx);
        currentOpIdx := currentOpIdx + 1;
        var status := TryRange(op);
        if status == IteratorEnd { continue; }
        return Ok;
      }
      assert itOps[currentOpIdx..] == [];
      code := IteratorEnd;
      s := Ok;
    }

    method TryRange(op: IteratorOptions) returns (status: Status)
      requires Clean(tree)
      modifies this`treeIt, tree, tree.root.children
      ensures Clean(tree) && fresh(treeIt) && treeIt != null && treeIt.tree == tree
      ensures SameLeaves(tree) && tree.root.children == old(tree.root.children)
      ensures status == Ok || status == IteratorEnd
      ensures status == Ok ==> treeIt.Opened() && treeIt.Left() == Scan(LeavesOf(tree), op)
      ensures status == IteratorEnd ==> Scan(LeavesOf(tree), op) == []
    {
      hide Clean, Scan, BptIterator.Opened, BptIterator.Left;
      treeIt := new BptIterator(tree, op);
      status := treeIt.Open();
    }

    /** Fills one page from the open range and the ranges behind it. The page is short
        exactly when all ranges are used up, and then the end status is set. */
    method Next()
      requires Running()
      modifies this`currentOpIdx, this`treeIt, this`code, this`dataSegment, treeIt, tree, tree.root.children
      ensures Running()
      ensures SameLeaves(tree) && tree.root.children == old(tree.root.children)
      ensures old(code) != Ok ==> code == old(code) && dataSegment == old(dataSegment)
      ensures old(code) == Ok ==>
        var all := old(Left());
        var n := if |all| < pageSize then |all| else pageSize;
        && dataSegment == all[..n] && Left() == all[n..]
        && (code == IteratorEnd <==> |all| < pageSize)
      ensures old(currentOpIdx) <= currentOpIdx && (treeIt == old(treeIt) || fresh(treeIt))
    {
      hide Clean, ScanAll, BaseIterator.Left, BaseIterator.Running, BaseIterator.Pending;
      if code != Ok { return; }
      ghost var all := Left();
      ClearPage();
      while code == Ok && |dataSegment| < pageSize
        invariant Running() && |dataSegment| <= pageSize && (code == Ok || code == IteratorEnd)
        invariant SameLeaves(tree) && tree.root.children == old(tree.root.children)
        invariant dataSegment + Left() == all
        invariant code == IteratorEnd ==> |dataSegment| < pageSize
        invariant old(currentOpIdx) <= currentOpIdx && (treeIt == old(treeIt) || fresh(treeIt))
        decreases code == Ok, |itOps| - currentOpIdx, Pending()
      {
        FillOnce(all);
      }
      if code != Ok { EndedLeft(); }
    }

    method ClearPage()
      requires Running()
      modifies this`dataSegment
      ensures dataSegment == [] && Running() && Left() == old(Left())
    {
      hide Clean, ScanAll, BptIterator.Left;
      dataSegment := [];
    }

    /** What is to be done in the open range. */
    ghost function Pending(): nat
      requires Running()
      reads this, treeIt, tree, tree.ctx, tree.ctx.kv, tree.root, tree.root.children
    {
      if code == Ok then treeIt.Work() else 0
    }

    /** One round of the filling loop: a part of the open range, or the next range. */
    method FillOnce(ghost all: seq<Entry>)
      requires Running() && code == Ok && |dataSegment| < pageSize && dataSegment + Left() == all
      modifies this`currentOpIdx, this`treeIt, this`code, this`dataSegment, treeIt, tree, tree.root.children
      ensures Running() && dataSegment + Left() == all && |dataSegment| <= pageSize
      ensures SameLeaves(tree) && tree.root.children == old(tree.root.children)
      ensures code == Ok || (code == IteratorEnd && |dataSegment| < pageSize)
      ensures old(currentOpIdx) <= currentOpIdx && (treeIt == old(treeIt) || fresh(treeIt))
      ensures code == Ok ==>
        || old(currentOpIdx) < currentOpIdx <= |itOps|
        || (currentOpIdx == old(currentOpIdx) && Pending() < old(Pending()))
    {
      hide Clean, ScanAll, BptIterator.Left, BptIterator.HashNext, BptIterator.Work;
      if treeIt.HashNext() {
        TakeFromOpenRange(all);
      } else {
        OpenNextRange(all);
      }
    }

    /** One round of the filling loop on an exhausted range. */
    method OpenNextRange(ghost all: seq<Entry>)
      requires Running() && code == Ok && !treeIt.HashNext() && dataSegment + Left() == all
      modifies this`currentOpIdx, this`treeIt, this`code, tree, tree.root.children
      ensures Running() && dataSegment + Left() == all
      ensures SameLeaves(tree) && tree.root.children == old(tree.root.children)
      ensures old(currentOpIdx) <= currentOpIdx && (treeIt == old(treeIt) || fresh(treeIt))
      ensures code == Ok ==> old(currentOpIdx) < currentOpIdx
    {
      hide Clean, ScanAll, BptIterator.Left, BptIterator.HashNext;
      var status := Open();
      code := if status != Ok then status else code;
    }

    /** One round of the filling loop on a range that goes on. */
    method TakeFromOpenRange(ghost all: seq<Entry>)
      requires Running() && code == Ok && treeIt.HashNext() && |dataSegment| < pageSize
      requires dataSegment + Left() == all
      modifies this`dataSegment, treeIt, tree, tree.root.children
      ensures Running() && |dataSegment| <= pageSize
      ensures SameLeaves(tree) && tree.root.children == old(tree.root.children)
      ensures dataSegment + Left() == all
      ensures treeIt.Work() < old(treeIt.Work())
    {
      hide Clean, ScanAll, BptIterator.Left, BptIterator.HashNext, BptIterator.Work;
      ghost var before, here, later := dataSegment, treeIt.Left(), ScanAll(LeavesOf(tree), itOps[currentOpIdx..]);
      var segment := treeIt.TakePart(dataSegment, pageSize - |dataSegment|);
      dataSegment := segment;
      assert segment + (treeIt.Left() + later) == (segment + treeIt.Left()) + later;
      assert before + (here + later) == (before + here) + later;
    }
  }

  lemma NoRanges(vs: seq<LeafView>)
    ensures ScanAll(vs, []) == []
  {
  }

  lemma ScanAllStep(vs: seq<LeafView>, ops: seq<IteratorOptions>, n: nat)
    requires n < |ops|
    ensures ScanAll(vs, ops[n..]) == Scan(vs, ops[n]) + ScanAll(vs, ops[n + 1..])
  {
  }
}
