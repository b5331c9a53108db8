/** An index: its tree, and the statements that insert or delete the keys of many rows
    before a save. */
module Indexes {
  import opened DataOrder
  import opened OrderedMap
  import opened TreeStates
  import opened TreeOps
  import opened Statements
  import opened BptNodes
  import opened Bptrees

  class Index {
    const tree: Bptree
    /** Where the index description keeps the largest node id given out, as far as it was told. */
    var maxTreeNodeId: nat

    /** Opens the index on what storage holds, whatever the description says of the ids in use. */
    constructor (kv: KvStorage, rootId: nat, maxTreeNodeId: nat, ghost st0: TreeState)
      requires WellFormed(st0) && RootSynced(st0) && st0.unsaved == {}
      requires st0.rootId == rootId <= maxTreeNodeId
      requires kv.nodes.Keys == st0.nodes.Keys && forall k :: k in kv.nodes ==> Decodes(kv.nodes[k], st0.nodes[k])
      ensures this.maxTreeNodeId == maxTreeNodeId && tree.ctx.kv == kv
      ensures fresh(tree) && fresh(tree.ctx) && fresh(tree.root) && forall c :: c in tree.root.children ==> fresh(c)
      ensures tree.Valid() && tree.st == ReopenStep(st0, maxTreeNodeId)
      ensures Intact(st0) ==>
                && Intact(tree.st) && Settled(tree.st) && Model(tree.st) == Model(st0)
                && (Fresh(st0) && st0.maxId <= maxTreeNodeId ==> Fresh(tree.st))
    {
      hide Intact, Fresh, WellFormed, Settled;
      if Intact(st0) { ReopenKeeps(st0, maxTreeNodeId); }
      var t := OpenIndex(kv, rootId, maxTreeNodeId, st0);
      this.tree, this.maxTreeNodeId := t, maxTreeNodeId;
    }

    method Save()
      requires tree.Valid()
      modifies tree`st, tree.ctx`unsaved, tree.ctx.kv
      ensures tree.Valid() && tree.st == AfterSave(old(tree.st))
      ensures old(Intact(tree.st)) ==>
                && Intact(tree.st) && Settled(tree.st) && Model(tree.st) == old(Model(tree.st))
                && (old(Fresh(tree.st)) ==> Fresh(tree.st))
    {
      hide Intact, Fresh, WellFormed, Settled, AfterSave, Model;
      if Intact(tree.st) { SaveKeeps(tree.st); }
      tree.Save();
    }

    /** Inserts row after row and stops at the first that is refused, or that makes the root due
        for a split; only a statement that goes through records the largest node id. Rows that
        find their leaves settled go in as into a finite map. */
    method Insert(rows: seq<Entry>) returns (s: Status)
      requires tree.Valid() && RowsSized(tree.st, rows)
      modifies this, tree`st, tree.ctx, tree.root, tree.root.children
      ensures s == AfterRows(old(tree.st), rows).1
      ensures s != Undefined ==> tree.Valid() && tree.st == AfterRows(old(tree.st), rows).0
      ensures maxTreeNodeId == if s == Ok then tree.ctx.maxId else old(maxTreeNodeId)
      ensures s != Undefined && old(Intact(tree.st) && RowsReady(tree.st, rows)) ==>
                && Intact(tree.st) && (old(Fresh(tree.st)) ==> Fresh(tree.st))
                && (Model(tree.st), s) == InsertedRows(old(Model(tree.st)), rows)
      ensures forall c :: c in tree.root.children ==> c in old(tree.root.children) || fresh(c)
    {
      hide Bptree.Valid, Intact, Fresh, AfterInsert, Inserted, InsertStatus, RootDue, RowsSized, RowsReady, InsertedRows, Model;
      if Intact(tree.st) && RowsReady(tree.st, rows) { RowsMeaning(tree.st, rows); }
      ghost var st0 := tree.st;
      var i := 0;
      assert rows[0..] == rows;
      while i < |rows|
        invariant 0 <= i <= |rows| && tree.Valid()
        invariant RowsSized(tree.st, rows[i..])
        invariant AfterRows(tree.st, rows[i..]) == AfterRows(st0, rows)
        invariant maxTreeNodeId == old(maxTreeNodeId)
        invariant forall c :: c in tree.root.children ==> c in old(tree.root.children) || fresh(c)
      {
        ghost var rest := rows[i..];
        assert rest[0] == rows[i] && rest[1..] == rows[i + 1..];
        RestSized(tree.st, rest);
        InsertedIs(tree.st, rest[0]);
        forall j | 0 <= j < |tree.root.children|
          ensures tree.root.children[j] in old(tree.root.children) || fresh(tree.root.children[j])
        {
          assert tree.root.children[j] in tree.root.children;
        }
        s := InsertRow(rows[i]);
        if s != Ok { return; }
        i := i + 1;
      }
      assert rows[i..] == [];
      maxTreeNodeId := tree.ctx.maxId;
      s := Ok;
    }

    method InsertRow(e: Entry) returns (s: Status)
      requires tree.Valid() && RowSized(tree.st, e)
      modifies tree`st, tree.ctx, tree.root, tree.root.children
      ensures s == InsertStatus(old(tree.st), e)
      ensures s != Undefined ==> tree.Valid() && tree.st == Inserted(old(tree.st), e)
      ensures forall c :: c in tree.root.children ==> c in old(tree.root.children) || fresh(c)
    {
      hide Intact, Fresh, WellFormed, Inserted, InsertReady, TakesFreeId, InsertStatus, Model;
      s := tree.Insert(e.key, e.value);
    }

    /** Deletes key after key and stops where a leaf cannot be re-read. Keys that find their
        leaves settled and saved go out as from a finite map. */
    method Delete(keys: seq<Bytes>) returns (s: Status)
      requires tree.Valid()
      modifies this, tree`st, tree.ctx`unsaved, tree.root, tree.root.children
      ensures tree.Valid() && (tree.st, s) == AfterKeys(old(tree.st), keys)
      ensures maxTreeNodeId == if s == Ok then tree.ctx.maxId else old(maxTreeNodeId)
      ensures old(Intact(tree.st) && KeysReady(tree.st, keys)) ==>
                && Intact(tree.st) && (old(Fresh(tree.st)) ==> Fresh(tree.st)) && s == Ok
                && Model(tree.st) == DeletedKeys(old(Model(tree.st)), keys)
      ensures forall c :: c in tree.root.children ==> c in old(tree.root.children)
    {
      hide Bptree.Valid, Intact, Fresh, AfterDelete, DeleteStatus, KeysReady, DeletedKeys, Model;
      if Intact(tree.st) && KeysReady(tree.st, keys) { KeysMeaning(tree.st, keys); }
      ghost var st0 := tree.st;
      var i := 0;
      assert keys[0..] == keys;
      while i < |keys|
        invariant 0 <= i <= |keys| && tree.Valid() && maxTreeNodeId == old(maxTreeNodeId)
        invariant AfterKeys(tree.st, keys[i..]) == AfterKeys(st0, keys)
        invariant forall c :: c in tree.root.children ==> c in old(tree.root.children)
      {
        ghost var rest := keys[i..];
        assert rest[0] == keys[i] && rest[1..] == keys[i + 1..];
        forall j | 0 <= j < |tree.root.children| ensures tree.root.children[j] in old(tree.root.children) {
          assert tree.root.children[j] in tree.root.children;
        }
        s := DeleteKey(keys[i]);
        if s != Ok { return; }
        i := i + 1;
      }
      assert keys[i..] == [];
      maxTreeNodeId := tree.ctx.maxId;
      s := Ok;
    }

    method DeleteKey(key: Bytes) returns (s: Status)
      requires tree.Valid()
      modifies tree`st, tree.ctx`unsaved, tree.root, tree.root.children
      ensures tree.Valid() && tree.st == AfterDelete(old(tree.st), key) && s == DeleteStatus(old(tree.st), key)
      ensures forall c :: c in tree.root.children ==> c in old(tree.root.children)
    {
      hide Intact, Fresh, WellFormed, AfterDelete, LookupReady, LookupSaved;
      s := tree.Delete(key);
    }
  }
}
