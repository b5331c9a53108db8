/** Nodes of the B+ tree, the tree context and the key-value storage below them. */
module BptNodes {
  import opened DataOrder
  import opened OrderedMap
  import opened LeafCodec
  import opened TreeStates

  /** The records of one index, by node id. */
  class KvStorage {
    var nodes: map<nat, NodeRecord>

    constructor ()
      ensures nodes == map[]
    {
      nodes := map[];
    }
  }

  ghost predicate Loadable(nodes: map<nat, NodeRecord>, id: nat) {
    id in nodes ==> nodes[id].LeafRecord? && Decodable(nodes[id].keys, nodes[id].values)
  }

  class TreeCtx {
    const kv: KvStorage
    var unsaved: map<nat, BptNode>
    var maxId: nat

    constructor (kv: KvStorage, treeId: nat)
      ensures this.kv == kv && unsaved == map[] && maxId == treeId
    {
      this.kv := kv;
      unsaved := map[];
      maxId := treeId;
    }

    method AllocateNodeId() returns (id: nat)
      modifies this`maxId
      ensures id == maxId == old(maxId) + 1
    {
      maxId := maxId + 1;
      id := maxId;
    }

    method CollectUnsavedTreeNode(node: BptNode)
      modifies this`unsaved
      ensures unsaved == old(unsaved)[node.id := node]
    {
      unsaved := unsaved[node.id := node];
    }

    method RemoveUnsavedTreeNode(node: BptNode)
      modifies this`unsaved
      ensures unsaved == old(unsaved) - {node.id}
    {
      unsaved := unsaved - {node.id};
    }

    /** Writes every unsaved node and empties the set. */
    method PullUnsavedTreeNode()
      requires forall k :: k in unsaved ==> unsaved[k].id == k
      modifies this`unsaved, kv
      ensures unsaved == map[]
      ensures kv.nodes.Keys == old(kv.nodes.Keys) + old(unsaved.Keys)
      ensures forall k :: k in old(unsaved) ==> kv.nodes[k] == old(unsaved[k].Record())
      ensures forall k :: k in old(kv.nodes) && k !in old(unsaved) ==> kv.nodes[k] == old(kv.nodes)[k]
    {
      hide BptNode.Record;
      ghost var records := map k | k in unsaved :: unsaved[k].Record();
      var left, nodes := unsaved.Keys, kv.nodes;
      while left != {}
        invariant left <= unsaved.Keys
        invariant nodes.Keys == kv.nodes.Keys + (unsaved.Keys - left)
        invariant forall k :: k in unsaved && k !in left ==> nodes[k] == records[k]
        invariant forall k :: k in kv.nodes && k !in unsaved ==> nodes[k] == kv.nodes[k]
        modifies {}
        decreases left
      {
        var id :| id in left;
        var record := unsaved[id].Serialize();
        nodes := nodes[id := record];
        left := left - {id};
      }
      kv.nodes := nodes;
      unsaved := map[];
    }
  }

  /** First child whose maximal key is not below `key`. */
  function FirstMaxNotBelow(cs: seq<BptNode>, key: Bytes): (i: nat)
    reads cs
    ensures i <= |cs|
    ensures forall j :: 0 <= j < i ==> Less(cs[j].stat.maxKey, key)
    ensures i < |cs| ==> !Less(cs[i].stat.maxKey, key)
  {
    if cs == [] || !Less(cs[0].stat.maxKey, key) then 0 else 1 + FirstMaxNotBelow(cs[1..], key)
  }

  /** First child whose maximal key is above `key`. */
  function FirstMaxAbove(cs: seq<BptNode>, key: Bytes): (i: nat)
    reads cs
    ensures i <= |cs|
    ensures forall j :: 0 <= j < i ==> LessEq(cs[j].stat.maxKey, key)
    ensures i < |cs| ==> Less(key, cs[i].stat.maxKey)
  {
    if cs == [] || Less(key, cs[0].stat.maxKey) then 0 else 1 + FirstMaxAbove(cs[1..], key)
  }

  function Refs(cs: seq<BptNode>): (refs: seq<NodeRef>)
    reads cs
    ensures |refs| == |cs|
    ensures forall i :: 0 <= i < |cs| ==> refs[i] == NodeRef(cs[i].id, cs[i].isLeaf, cs[i].stat)
  {
    if cs == [] then [] else [NodeRef(cs[0].id, cs[0].isLeaf, cs[0].stat)] + Refs(cs[1..])
  }

  class BptNode {
    const ctx: TreeCtx
    const parent: BptNode?
    const id: nat
    const isLeaf: bool
    const isRoot: bool
    var children: seq<BptNode>
    var kvs: seq<Entry>
    var writeKvs: map<Bytes, Bytes>
    var stat: NodeStatistics

    /** The root of an index, before any child is known. */
    constructor Root(ctx: TreeCtx, id: nat)
      ensures this.ctx == ctx && parent == null && this.id == id && !isLeaf && isRoot
      ensures children == [] && kvs == [] && writeKvs == map[] && stat == EMPTY_STAT
    {
      this.ctx, parent, this.id, isLeaf, isRoot := ctx, null, id, false, true;
      children, kvs, writeKvs, stat := [], [], map[], EMPTY_STAT;
    }

    /** A child known only from its parent's record; its entries are not in memory. */
    constructor FromRef(ctx: TreeCtx, parent: BptNode, node: NodeRef)
      ensures this.ctx == ctx && this.parent == parent && id == node.id
      ensures isLeaf == node.isLeaf && !isRoot
      ensures children == [] && kvs == [] && writeKvs == map[] && stat == node.stat
    {
      this.ctx, this.parent, id, isLeaf, isRoot := ctx, parent, node.id, node.isLeaf, false;
      children, kvs, writeKvs, stat := [], [], map[], node.stat;
    }

    /** A new, empty node under `parent`. */
    constructor Fresh(ctx: TreeCtx, parent: BptNode?, isLeaf: bool)
      modifies ctx`maxId
      ensures ctx.maxId == old(ctx.maxId) + 1
      ensures this.ctx == ctx && this.parent == parent && id == ctx.maxId
      ensures this.isLeaf == isLeaf && !isRoot
      ensures children == [] && kvs == [] && writeKvs == map[] && stat == EMPTY_STAT
    {
      var id := ctx.AllocateNodeId();
      this.ctx, this.parent, this.id, this.isLeaf, isRoot := ctx, parent, id, isLeaf, false;
      children, kvs, writeKvs, stat := [], [], map[], EMPTY_STAT;
    }

    predicate IsEmpty()
      reads this
    {
      children == [] && kvs == []
    }

    ghost function Record(): NodeRecord
      reads this, children
    {
      if isLeaf then LeafRecord(id, EncodeKeys(kvs), EncodeValues(kvs)) else InteriorRecord(id, Refs(children))
    }

    method Serialize() returns (r: NodeRecord)
      ensures r == Record()
    {
      if isLeaf { r := SerializeLeaf(id, kvs); } else { r := InteriorRecord(id, Refs(children)); }
    }

    /** Restores the children of an interior node from its record. */
    method LoadChildren(refs: seq<NodeRef>)
      requires children == []
      modifies this`children
      ensures |children| == |refs| && forall i, j :: 0 <= i < j < |refs| ==> children[i] != children[j]
      ensures forall i :: 0 <= i < |refs| ==>
                var c := children[i];
                && fresh(c) && c.ctx == ctx && c.parent == this && c.id == refs[i].id
                && c.isLeaf == refs[i].isLeaf && !c.isRoot && c.children == [] && c.kvs == [] && c.writeKvs == map[]
                && c.stat == refs[i].stat
    {
      for n := 0 to |refs|
        invariant |children| == n && forall i, j :: 0 <= i < j < n ==> children[i] != children[j]
        invariant forall i :: 0 <= i < n ==>
                    var c := children[i];
                    && fresh(c) && c.ctx == ctx && c.parent == this && c.id == refs[i].id
                    && c.isLeaf == refs[i].isLeaf && !c.isRoot && c.children == [] && c.kvs == []
                    && c.writeKvs == map[] && c.stat == refs[i].stat
      {
        var child := new BptNode.FromRef(ctx, this, refs[n]);
        children := children + [child];
      }
    }

    /** Re-reads the leaf's record and merges it into the entries in memory. */
    method LoadNodeFromKvStorage() returns (s: Status)
      requires isLeaf && Loadable(ctx.kv.nodes, id)
      modifies this`kvs
      ensures s == if id in ctx.kv.nodes then Ok else StorageKvNotFound
      ensures kvs == if id in ctx.kv.nodes
                     then EmplaceAll(old(kvs), DecodeEntries(ctx.kv.nodes[id].keys, ctx.kv.nodes[id].values))
                     else old(kvs)
    {
      if id !in ctx.kv.nodes { return StorageKvNotFound; }
      kvs := DeserializeLeaf(kvs, ctx.kv.nodes[id].keys, ctx.kv.nodes[id].values);
      s := Ok;
    }

    method Insert(key: Bytes, value: Bytes) returns (s: Status)
      requires isLeaf
      modifies this`kvs, this`writeKvs
      ensures s == if Has(old(kvs), key) then DuplicateKey else if key in old(writeKvs) then BptreeError else Ok
      ensures s == Ok ==> && kvs == Emplace(old(kvs), Entry(key, value))
                          && writeKvs == old(writeKvs)[key := value]
      ensures s != Ok ==> kvs == old(kvs) && writeKvs == old(writeKvs)
    {
      if Has(kvs, key) { return DuplicateKey; }
      if key in writeKvs { return BptreeError; }
      writeKvs := writeKvs[key := value];
      kvs := Emplace(kvs, Entry(key, value));
      s := Ok;
    }

    method Delete(key: Bytes) returns (s: Status)
      requires isLeaf
      modifies this`kvs, this`writeKvs
      ensures s == if Has(old(kvs), key) then Ok else BptreeError
      ensures s == Ok ==> kvs == Erase(old(kvs), key) && writeKvs == old(writeKvs) - {key}
      ensures s != Ok ==> kvs == old(kvs) && writeKvs == old(writeKvs)
    {
      if !Has(kvs, key) { return BptreeError; }
      kvs := Erase(kvs, key);
      writeKvs := writeKvs - {key};
      s := Ok;
    }

    method GetItem(key: Bytes) returns (s: Status, value: Bytes)
      ensures s == if Has(kvs, key) then Ok else BptreeError
      ensures s == Ok ==> value == kvs[LowerBound(kvs, key)].value
    {
      if Has(kvs, key) {
        return Ok, kvs[LowerBound(kvs, key)].value;
      }
      return BptreeError, [];
    }

    method AddChild(node: BptNode)
      modifies this`children
      ensures children == var i := old(FirstMaxAbove(children, node.stat.maxKey));
                          old(children)[..i] + [node] + old(children)[i..]
    {
      var i := FirstMaxAbove(children, node.stat.maxKey);
      children := children[..i] + [node] + children[i..];
    }

    method DelChild(node: BptNode)
      modifies this`children
      ensures children == var i := old(FindChildNode(node));
                          if i < |old(children)| then old(children)[..i] + old(children)[i + 1..] else old(children)
    {
      var i := FindChildNode(node);
      if i < |children| { children := children[..i] + children[i + 1..]; }
    }

    /** Position of the child whose range holds `key`; the child count when there is none. */
    function FindChild(key: Bytes): (i: nat)
      reads this, children
      ensures i <= |children|
      ensures i < |children| ==> && LessEq(children[i].stat.minKey, key)
                                 && LessEq(key, children[i].stat.maxKey)
    {
      var i := FirstMaxNotBelow(children, key);
      if i < |children| && LessEq(children[i].stat.minKey, key) then i else |children|
    }

    function FindChildNode(node: BptNode): (i: nat)
      reads this, children, node
      ensures i <= |children|
      ensures i < |children| ==> children[i] == node
    {
      var i := FirstMaxNotBelow(children, node.stat.maxKey);
      if i < |children| && children[i] == node then i else |children|
    }

    method NewMutableLeafChild() returns (child: BptNode)
      modifies this`children, ctx`maxId
      ensures fresh(child) && children == old(children) + [child]
      ensures ctx.maxId == old(ctx.maxId) + 1
      ensures child.ctx == ctx && child.parent == this && child.id == ctx.maxId && child.isLeaf && !child.isRoot
      ensures child.children == [] && child.kvs == []
      ensures child.writeKvs == map[] && child.stat == EMPTY_STAT
    {
      child := new BptNode.Fresh(ctx, this, true);
      children := children + [child];
    }

    method UpdateStatByAddKv(key: Bytes, value: Bytes)
      modifies this`stat
      ensures stat == AddStat(old(stat), |kvs|, key, value)
    {
      stat := stat.(count := |kvs|, nodeSize := Wrap64(stat.nodeSize + |value|));
      if stat.count == 1 {
        stat := stat.(maxKey := key, minKey := key, nodeSize := Wrap64(stat.nodeSize + |key| + |key| + 20));
        return;
      }
      if Less(stat.maxKey, key) {
        stat := stat.(nodeSize := Wrap64(stat.nodeSize - |stat.maxKey| + |key|), maxKey := key);
      }
      if Less(key, stat.minKey) {
        stat := stat.(nodeSize := Wrap64(stat.nodeSize - |stat.minKey| + |key|), minKey := key);
      }
    }

    /** The caller unlinks a leaf that became empty, so an entry is left. */
    method UpdateStatByDelKv(key: Bytes)
      requires kvs != []
      modifies this`stat
      ensures stat == DelStat(old(stat), kvs, key)
    {
      stat := stat.(count := |kvs|);
      if key == stat.maxKey {
        stat := stat.(nodeSize := Wrap64(stat.nodeSize - |stat.maxKey|), maxKey := kvs[|kvs| - 1].key);
        return;
      }
      if key == stat.minKey {
        stat := stat.(nodeSize := Wrap64(stat.nodeSize - |stat.minKey|), minKey := kvs[0].key);
      }
    }

    /** An interior node takes over the outer keys of its first and last child. */
    method UpdateStatByRangeChange(isAdd: bool)
      requires children != [] && this !in children
      modifies this`stat
      ensures stat == RangeStat(old(stat), children[0].stat.minKey, children[|children| - 1].stat.maxKey, isAdd)
    {
      var minKey := children[0].stat.minKey;
      if minKey != stat.minKey {
        stat := stat.(nodeSize := Wrap64(stat.nodeSize - |stat.minKey| + |minKey|), minKey := minKey);
      }
      var maxKey := children[|children| - 1].stat.maxKey;
      if maxKey != stat.maxKey {
        WrapWrap(old(stat).nodeSize - |old(stat).minKey| + |minKey|, |maxKey| - |stat.maxKey|);
        stat := stat.(nodeSize := Wrap64(stat.nodeSize - |stat.maxKey| + |maxKey|), maxKey := maxKey);
      }
      stat := stat.(count := Wrap64(stat.count + (if isAdd then 1 else -1)));
    }

    method ResetStat()
      modifies this`stat
      ensures stat == EMPTY_STAT
    {
      stat := EMPTY_STAT;
    }

    predicate NeedSplit()
      reads this
    {
      SplitDue(stat, if isLeaf then |kvs| else |children|)
    }

    /** Moves the upper half of a leaf into a new right sibling; the leaf keeps as many entries as it
        gives away, or one more. */
    method Split() returns (right: BptNode)
      requires isLeaf && |kvs| >= 2 && Sorted(kvs)
      modifies this`kvs, this`writeKvs, this`stat, ctx`maxId
      ensures fresh(right) && ctx.maxId == old(ctx.maxId) + 1
      ensures right.ctx == ctx && right.parent == parent && right.id == ctx.maxId && right.isLeaf && !right.isRoot
      ensures right.children == []
      ensures kvs + right.kvs == old(kvs) && |right.kvs| <= |kvs| <= |right.kvs| + 1
      ensures kvs == old(kvs)[..Cut(|old(kvs)|)] && right.kvs == old(kvs)[Cut(|old(kvs)|)..]
      ensures writeKvs.Keys == old(writeKvs.Keys) - Keys(right.kvs) && right.writeKvs.Keys == Keys(right.kvs)
      ensures right.stat == NodeStatistics(right.kvs[0].key, right.kvs[|right.kvs| - 1].key, 0,
                                           Wrap64(PayloadSize(right.kvs)))
      ensures stat == NodeStatistics(kvs[0].key, kvs[|kvs| - 1].key, |kvs|,
                                     Wrap64(old(stat).nodeSize - right.stat.nodeSize))
    {
      right := new BptNode.Fresh(ctx, parent, isLeaf);
      var splitIdx := (|kvs| + 1) / 2 - 1;
      var size := MoveTail(right, splitIdx + 1);
      right.stat := right.stat.(nodeSize := Wrap64(size), minKey := right.kvs[0].key,
                                maxKey := right.kvs[|right.kvs| - 1].key);
      stat := NodeStatistics(kvs[0].key, kvs[|kvs| - 1].key, |kvs|, Wrap64(stat.nodeSize - Wrap64(size)));
    }

    /** The moving loop of `Split`; returns the number of bytes moved. */
    method MoveTail(right: BptNode, cut: nat) returns (size: nat)
      requires right != this && right.isLeaf && cut <= |kvs| && Sorted(kvs)
      requires right.kvs == [] && right.writeKvs == map[]
      modifies this`kvs, this`writeKvs, right`kvs, right`writeKvs
      ensures kvs == old(kvs)[..cut] && right.kvs == old(kvs)[cut..]
      ensures writeKvs.Keys == old(writeKvs.Keys) - Keys(right.kvs)
      ensures right.writeKvs.Keys == Keys(right.kvs)
      ensures size == PayloadSize(right.kvs)
    {
      hide Sorted, ToMap, PayloadSize;
      ghost var all, moved := kvs, cut;
      size := 0;
      EmptyRun();
      while cut < |kvs|
        invariant cut <= moved <= |all|
        invariant kvs == all[..cut] + all[moved..]
        invariant right.kvs == all[cut..moved]
        invariant writeKvs.Keys == old(writeKvs.Keys) - Keys(right.kvs)
        invariant right.writeKvs.Keys == Keys(right.kvs)
        invariant size == PayloadSize(right.kvs)
        decreases |kvs|
      {
        CutStep(all, cut, moved);
        size := size + |kvs[cut].key| + |kvs[cut].value|;
        MoveOne(right, cut);
        moved := moved + 1;
      }
      assert moved == |all|;
    }

    method MoveOne(right: BptNode, at: nat)
      requires right != this && right.isLeaf && at < |kvs|
      requires Sorted(right.kvs + [kvs[at]]) && right.writeKvs.Keys == Keys(right.kvs)
      modifies this`kvs, this`writeKvs, right`kvs, right`writeKvs
      ensures kvs == old(kvs)[..at] + old(kvs)[at + 1..]
      ensures right.kvs == old(right.kvs) + [old(kvs)[at]]
      ensures writeKvs.Keys == old(writeKvs.Keys) - {old(kvs)[at].key}
      ensures right.writeKvs.Keys == Keys(right.kvs) == Keys(old(right.kvs)) + {old(kvs)[at].key}
      ensures PayloadSize(right.kvs) == PayloadSize(old(right.kvs)) + |old(kvs)[at].key| + |old(kvs)[at].value|
    {
      hide Sorted, ToMap, PayloadSize, Emplace, Has;
      EmplaceAtEnd(right.kvs, kvs[at]);
      var s := right.Insert(kvs[at].key, kvs[at].value);
      writeKvs := writeKvs - {kvs[at].key};
      kvs := kvs[..at] + kvs[at + 1..];
    }
  }

  lemma EmptyRun()
    ensures Keys([]) == {} && PayloadSize([]) == 0
  {
  }

  /** One round of the moving loop, on values. */
  lemma CutStep(all: seq<Entry>, cut: nat, moved: nat)
    requires Sorted(all) && cut <= moved < |all|
    ensures var kvs := all[..cut] + all[moved..];
            && kvs[cut] == all[moved]
            && kvs[..cut] + kvs[cut + 1..] == all[..cut] + all[moved + 1..]
            && all[cut..moved] + [all[moved]] == all[cut..moved + 1]
            && Sorted(all[cut..moved + 1])
  {
  }

  /** Emplacing an entry above all others appends it. */
  lemma EmplaceAtEnd(run: seq<Entry>, e: Entry)
    requires Sorted(run + [e])
    ensures !Has(run, e.key) && e.key !in Keys(run)
    ensures Emplace(run, e) == run + [e]
    ensures Keys(run + [e]) == Keys(run) + {e.key}
    ensures PayloadSize(run + [e]) == PayloadSize(run) + |e.key| + |e.value|
  {
    var n, all := LowerBound(run, e.key), run + [e];
    assert forall i :: 0 <= i < |run| ==> all[i] == run[i] && Less(all[i].key, all[|run|].key);
    assert n == |run|;
    assert run[..n] + [e] + run[n..] == run + [e];
    assert all[..|run|] == run;
    KeysAreEntries(run, e.key);
  }
}
